# API-key settings screen: a Dafny model

The repository is a browser dashboard that forwards almost everything to a hosted backend.
Its one piece of self-contained logic is the API-key settings screen,
`src/components/Settings/ApiKeys.jsx`. The screen lets a signed-in user list their API keys,
create one for a description, revoke one and delete one. It shows each key masked, and shows a
new key in full once. This model covers that screen and nothing else. It is small because the
screen is small.

Two modules:

- `ApiKeyRules` (`api_key_rules.dfy`) holds the pure rules:
  - the `api_keys` record and its two-state lifecycle: no `revoked_at` means active, a set one means revoked;
  - the user-facing error kinds, one per message key under `settings.apiKeys.errors`;
  - the mapping of an insert's PostgreSQL SQLSTATE code to an error kind: `23505` unique_violation and `23502` not_null_violation, both of class 23 "Integrity Constraint Violation" in PostgreSQL's error-code appendix;
  - JavaScript's `String.prototype.trim`, as the blank-description guard uses it;
  - the `sk-` key format and the masked form `key.slice(0, 8) + "..." + key.slice(-4)`, with `slice`'s clamping for short strings (characters counted as code points, see "## Left out");
  - the action each table row offers;
  - the store's update-by-id (revoke) and delete-by-id on the record table.
- `ApiKeysScreen` (`api_keys_screen.dfy`) holds the class `ApiKeyManager`. Its fields are the seven
  `useState` fields (`apiKeys`, `loading`, `error`, `description`, `showNewKey`, `newKey`,
  `copySuccess`), plus `table`, the store's rows as the screen's queries see them. Its methods are
  the screen's handlers. Each one states the whole new state for every outcome. The outside results
  come in as parameters:
  - the `getUser` outcome;
  - the UUID;
  - the insert reply, which carries the SQLSTATE code on failure;
  - the `window.confirm` answer;
  - whether the update, delete, select or clipboard write fails;
  - the current time.

  Each asynchronous handler runs atomically, including the list refresh it starts after a success.
  `CreateRevokeDeleteScenario` walks one key through its life using only these contracts:
  created, shown masked, revoked, then deleted.

Three points where the code is looser than a key lifecycle would suggest, modelled as written:

- Delete does not require the key to be revoked. Only the row button keeps active keys from being deleted, and that button is offered only for rows displayed as revoked. `RowActionKeepsRevokedRecords` proves what that UI gating guarantees while the displayed row is the store's current one.
- `revoked_at` is not protected against being rewritten. The button is chosen from the displayed list `apiKeys`, but the update goes to the store by id. When a revoke's list refresh fails, the list keeps the stale row, which still offers revoke; a second click overwrites `revoked_at`. `StaleRowRewritesRevokedAt` and `StaleListScenario` show this.
- `deleteApiKey` never sets `loading` itself. The `fetchApiKeys` refresh it starts after a success clears the flag, so `DeleteApiKey` states exactly that.

## Model

| member | source | states |
|---|---|---|
| `ApiKeyRules.InsertErrorKind` | src/components/Settings/ApiKeys.jsx:61-69 | every insert error code maps to exactly one of duplicateDescription, validationError, generateError; duplicateDescription exactly for 23505 and validationError exactly for 23502 |
| `ApiKeyRules.GenerateFailure` | src/components/Settings/ApiKeys.jsx:46-69 | generate succeeds exactly when a user is signed in and the insert is accepted; an auth error gives authError and no user gives notAuthenticated, whatever the insert would have answered; a rejected insert gives its code's kind |
| `ApiKeyRules.TrimStart` | src/components/Settings/ApiKeys.jsx:40 | drops exactly a leading run of whitespace: the result is a suffix, the dropped part is all whitespace, and the result is empty or starts with a non-whitespace character |
| `ApiKeyRules.TrimEnd` | src/components/Settings/ApiKeys.jsx:40 | drops exactly a trailing run of whitespace: the result is a prefix, the dropped part is all whitespace, and the result is empty or ends with a non-whitespace character |
| `ApiKeyRules.Trim` | src/components/Settings/ApiKeys.jsx:40 | `description.trim()` is the description with its leading whitespace run and its trailing whitespace run removed, and nothing else: a contiguous part of it with only whitespace before and after, empty or starting and ending with a non-whitespace character |
| `ApiKeyRules.TrimEmptyIffBlank` | src/components/Settings/ApiKeys.jsx:40 | `description.trim()` is empty exactly when every character is JavaScript whitespace (both directions) |
| `ApiKeyRules.GeneratedKey` | src/components/Settings/ApiKeys.jsx:50 | the key is `sk-` followed by the UUID, three characters longer than it |
| `ApiKeyRules.SliceHead` | src/components/Settings/ApiKeys.jsx:140 | `slice(0, n)` gives the first min(n, length) characters |
| `ApiKeyRules.SliceTail` | src/components/Settings/ApiKeys.jsx:140 | for n > 0, `slice(-n)` gives the last min(n, length) characters |
| `ApiKeyRules.MaskApiKey` | src/components/Settings/ApiKeys.jsx:139-141 | for a key of at least 12 characters the mask has 15 characters: the key's first 8, then `...`, then its last 4 |
| `ApiKeyRules.MaskDeterminesEnds` | src/components/Settings/ApiKeys.jsx:139-141 | for keys of at least 12 characters, two masks are equal exactly when the keys share their first 8 and last 4 characters, so the mask reveals those and nothing else |
| `ApiKeyRules.GeneratedKeyMask` | src/components/Settings/ApiKeys.jsx:139-141 | a key built at line 50 from a 36-character UUID has 39 characters; its mask has 15, starts with `sk-` and the UUID's first 5 characters, ends with the UUID's last 4, and is never the full key |
| `ApiKeyRules.StatusOf` | src/components/Settings/ApiKeys.jsx:288 | the badge is Revoked exactly when `revoked_at` is set |
| `ApiKeyRules.ActionOf` | src/components/Settings/ApiKeys.jsx:292-306 | a row offers revoke exactly when `revoked_at` is absent and delete exactly when it is set, so never both |
| `ApiKeyRules.ActionFollowsStatus` | src/components/Settings/ApiKeys.jsx:283-306 | an Active badge always comes with the revoke button, a Revoked badge with the delete button |
| `ApiKeyRules.NewRecord` | src/components/Settings/ApiKeys.jsx:54-59 | the inserted row carries the description and key, the user as both `user_id` and `created_by`, and is active |
| `ApiKeyRules.RevokeRecord` | src/components/Settings/ApiKeys.jsx:90-94 | a revoked row has `revoked_at` set to the given time and `user_id` set to the user; id, description, key, creator and creation time are unchanged |
| `ApiKeyRules.RevokedTable` | src/components/Settings/ApiKeys.jsx:88-94 | the update by id keeps the table's length and order, revokes every row with that id and leaves every other row as it was |
| `ApiKeyRules.DeletedTable` | src/components/Settings/ApiKeys.jsx:115-118 | the delete by id keeps exactly the rows with another id, revoked or not; a missing id changes nothing, a present one shrinks the table, and with unique ids it removes exactly one row |
| `ApiKeyRules.DeleteIdempotent` | src/components/Settings/ApiKeys.jsx:115-118 | deleting an id twice leaves the same table as deleting it once |
| `ApiKeyRules.RevokePreservesUniqueIds` | src/components/Settings/ApiKeys.jsx:88-94 | revoking keeps ids unique |
| `ApiKeyRules.DeletePreservesUniqueIds` | src/components/Settings/ApiKeys.jsx:115-118 | deleting keeps ids unique |
| `ApiKeyRules.ApplyRowAction` | src/components/Settings/ApiKeys.jsx:292-306 | the action is chosen from the displayed row and applied to the store by its id: for a row displayed as active, the table keeps its length, the rows with that id are revoked and every other row stays; for one displayed as revoked, exactly the rows with another id stay |
| `ApiKeyRules.RowActionKeepsRevokedRecords` | src/components/Settings/ApiKeys.jsx:292-306 | with unique ids, and while the displayed row is the store's current row, after its button's action a revoked record is either unchanged or gone: no key returns to active and `revoked_at` is not rewritten |
| `ApiKeyRules.StaleRowRewritesRevokedAt` | src/components/Settings/ApiKeys.jsx:292-306 | a row still displayed as active after its key was revoked in the store offers revoke, and its action overwrites the stored `revoked_at` |
| `ApiKeysScreen.ApiKeyManager.ClickRowButton` | src/components/Settings/ApiKeys.jsx:247-306 | a click on displayed row j, possible only while not loading, runs revoke or delete by that row's displayed status with its id; declined, it changes nothing; refused, it shows revokeError or deleteError; accepted, the table becomes `ApplyRowAction` of it and the list is refreshed; loading ends false |
| `ApiKeysScreen.ApiKeyManager.constructor` | src/components/Settings/ApiKeys.jsx:9-15 | initial state: empty list, loading, no error, empty description, form closed, no new key, not copied |
| `ApiKeysScreen.ApiKeyManager.FetchApiKeys` | src/components/Settings/ApiKeys.jsx:21-36 | on success the list becomes the store's rows and the error is untouched; on failure the list is kept and the error is loadError; loading always ends false |
| `ApiKeysScreen.ApiKeyManager.GenerateApiKey` | src/components/Settings/ApiKeys.jsx:38-80 | a blank description changes nothing; on auth failure, missing user or rejected insert, nothing is inserted, the error is that kind, newKey is null and the description is kept; on success one active row owned and created by the user is added, newKey is the `sk-` key, the description is cleared, the error is null unless the refresh fails, and the list is refreshed; loading ends false |
| `ApiKeysScreen.ApiKeyManager.SubmitNewKey` | src/components/Settings/ApiKeys.jsx:41-79 | past the guard: on auth failure, missing user or rejected insert the error is exactly that kind, newKey is null, and table, list and description are unchanged; on success the table gains exactly the new active row in front, newKey is the `sk-` key, the description is cleared and the list is refreshed; loading ends false |
| `ApiKeysScreen.ApiKeyManager.RevokeApiKey` | src/components/Settings/ApiKeys.jsx:82-108 | a declined confirmation changes nothing; without a user or on an update error the table is untouched and the error is revokeError; otherwise the rows with that id are revoked with the user reasserted, all else is kept and the list is refreshed; loading ends false |
| `ApiKeysScreen.ApiKeyManager.DeleteApiKey` | src/components/Settings/ApiKeys.jsx:110-126 | a declined confirmation changes nothing; on a store error the table and loading are untouched and the error is deleteError; otherwise the rows with that id are removed whatever their status and the list is refreshed |
| `ApiKeysScreen.ApiKeyManager.CopyToClipboard` | src/components/Settings/ApiKeys.jsx:128-137 | a successful write raises the copied flag and leaves the error alone; a failed one leaves the flag and shows copyError |
| `ApiKeysScreen.ApiKeyManager.CopyTimerElapsed` | src/components/Settings/ApiKeys.jsx:132 | the timer lowers the copied flag |
| `ApiKeysScreen.ApiKeyManager.OpenNewKeyForm` | src/components/Settings/ApiKeys.jsx:151 | the top generate button opens the form |
| `ApiKeysScreen.ApiKeyManager.EditDescription` | src/components/Settings/ApiKeys.jsx:176 | typing sets the description |
| `ApiKeysScreen.ApiKeyManager.CancelNewKeyForm` | src/components/Settings/ApiKeys.jsx:185-189 | cancel closes the form, empties the description and forgets the shown key |

## Left out

- Supabase queries, `supabase.auth.getUser`, `uuidv4`, `window.confirm`, `navigator.clipboard`, `new Date()` and `setTimeout` are foreign calls. Their results are method parameters.
- The 2-second delay before the copied flag drops is not modelled. `CopyTimerElapsed` is the timer's callback, and nothing forces it to run. The clipboard's content is not modelled.
- Overlapping asynchronous calls are not modelled. The refreshes after generate, revoke and delete are not awaited in the code, but each handler is treated as atomic, refresh included.
- Ordering by `created_at` descending and the uniqueness of descriptions are enforced by the store. A new row is put first in `table`, but the model does not claim any order. A duplicate description appears only as an insert rejected with code 23505.
- `SliceHead`, `SliceTail`, `MaskApiKey`, `Trim`: Dafny strings are sequences of Unicode code points, while JavaScript's `length`, `slice` and `trim` work on UTF-16 code units. The two agree only on text without characters outside the Basic Multilingual Plane. That includes every `sk-` + UUID key the screen builds, which is ASCII; for a key with astral characters the model's mask differs from the browser's.
- Timestamps are non-empty strings. The row tests `key.revoked_at ? … : …` use JavaScript truthiness, under which an empty string would count as active; a timestamp column never holds one.
- The unique ids that `RowActionKeepsRevokedRecords` assumes are the store's primary key, so the lemma takes them as a hypothesis.
- `GeneratedKey`: the UUID is any string. The version-4 UUID format is not checked, and `GeneratedKeyMask` assumes only its 36-character length.
- `GenerateApiKey`: some failures are exceptions thrown by the client library itself. Their raw message would reach the banner through `error.message`, but these failures are not modelled, and every failure is one of the enumerated kinds.
- `console.error` logging and `src/lib/logger.js` are diagnostics output only.
- Translations (`src/i18n/index.js`) are not modelled: error messages are their keys.
- The completion-API wrapper `tmp/openai.js` is network I/O.
- JSX rendering is not modelled: the loading and empty-table rows, the submit button's disabled state, CSS classes and `toLocaleDateString`. The row badge and row button are modelled as `StatusOf` and `ActionOf`.
- The mount effect is not modelled separately. It only calls `FetchApiKeys`.
