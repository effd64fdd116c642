# READily core, modelled in Dafny

READily is a children's-book discovery site. This project models the parts of
it that make decisions, and proves properties of them:

- **Category conversion** (`scripts/convert-categories.js`). Spreadsheet rows
  are grouped by their raw Category name with a `reduce` over a plain object.
  The object's entries then become `{id, name, items}` categories, where every
  id is `toLowerCase().replace(/[^a-z0-9]+/g, '-')` of the name.
  - `slug.dfy` models the slug.
  - `convert_categories.dfy` models the grouping and the `Object.entries` order.
    The grouping is a fold specification plus an imperative loop proved equal
    to it.
  - A category named like an `Object.prototype` member (`constructor`,
    `toString`, `__proto__`, …) finds a truthy inherited value in `acc`.
    `.push` then throws, and the `catch` at line 54 aborts the whole
    conversion, so nothing is written. The model keeps this as the
    `PushOnInherited` failure and proves exactly when it happens.
- **Category filter** (`client/src/components/CategoryFilter.tsx`).
  `toggleCategory` removes every copy of a selected id, or appends an
  unselected one. `category_filter.dfy` models it.
- **Settings forms** (`client/src/pages/UserSettings.tsx`). The zod profile
  schema and password schema become lists of `{path, message}` issues.
  `user_settings.dfy` models them.
  - Lengths are JavaScript lengths: UTF-16 code units.
  - A too-short field only marks the parse dirty, so the password-match
    refinement still runs.
- **Authentication** (`server/auth.ts`).
  - `password_hash.dfy` models the stored-password format of `crypto.hash`
    and `crypto.compare`: hex hash, `.`, hex salt. It spells out Node's hex
    decoding, `split('.')`, and `timingSafeEqual`'s length check.
  - `auth.dfy` models the login verify callback, the session
    serializer/deserializer, and `/api/register`.
  - The users table is a class, `UserTable`. Registration is a method on it
    that keeps emails and ids unique.
  - scrypt is a function parameter `kdf`, and `randomBytes(16)` is a `salt`
    parameter.

`wrappers.dfy` holds the `Option` and `Result` types.

## Model

| member | source | states |
|---|---|---|
| Slug.LowerChar | scripts/convert-categories.js:29 | ASCII capitals become the matching small letter; characters of [a-z0-9-] are unchanged; every other character except U+212A and U+0130 is kept as it is |
| Slug.Lower | scripts/convert-categories.js:29 | lower-casing never shortens a string |
| Slug.LowerOfSlugChars | scripts/convert-categories.js:29 | lower-casing leaves a string over [a-z0-9-] unchanged |
| Slug.DropRun | scripts/convert-categories.js:29 | dropping the leading run of characters outside [a-z0-9] leaves an empty string or one starting with [a-z0-9], and is strictly shorter when such a run was there |
| Slug.AlnumsOfDroppedRun | scripts/convert-categories.js:29 | dropping a run keeps every [a-z0-9] character |
| Slug.Collapse | scripts/convert-categories.js:29 | the replacement is never longer than its input, is empty exactly for the empty string, and starts with the input's first character if that is in [a-z0-9], else with '-' |
| Slug.CollapseChars | scripts/convert-categories.js:29 | after the replacement only [a-z0-9-] remain |
| Slug.CollapseNoDoubleDash | scripts/convert-categories.js:29 | each maximal run becomes one '-', so no '-' follows another |
| Slug.CollapseKeepsAlnums | scripts/convert-categories.js:29 | the [a-z0-9] characters survive in order |
| Slug.CollapseFixpoint | scripts/convert-categories.js:29 | a string over [a-z0-9-] without a double dash is left unchanged |
| Slug.Slugify | scripts/convert-categories.js:29 | every slug, of a category name or an item name, is over [a-z0-9-] and has no double dash |
| Slug.SlugifyIdempotent | scripts/convert-categories.js:29 | slugifying a slug gives it back |
| Slug.SlugifyOfAlnum | scripts/convert-categories.js:29 | a name already in [a-z0-9] is its own slug |
| Slug.SlugifyKeepsAlnums | scripts/convert-categories.js:29 | the slug keeps the [a-z0-9] characters of the lower-cased name, in order |
| ConvertCategories.FoldFailureSticks | scripts/convert-categories.js:15-34 | once a step has thrown, later rows change nothing: the throw ends the reduce |
| ConvertCategories.IsValid | scripts/convert-categories.js:19 | a row counts only when both its Category and its Items cell are non-empty; FoldKeys and FoldTotal prove that exactly these rows are grouped |
| ConvertCategories.ItemOf | scripts/convert-categories.js:28-31 | a valid row contributes `{id: slug(itemName), name: itemName}`; FoldItems proves each list holds exactly these items, in row order |
| ConvertCategories.Step | scripts/convert-categories.js:15-34 | one reducer call throws only for an inherited name that is not yet a key, and otherwise keeps the object consistent: distinct keys, exactly the map's keys |
| ConvertCategories.StepExtends | scripts/convert-categories.js:24-31 | a reducer call that does not throw keeps every key and only appends to the list under it, never dropping or reordering items |
| ConvertCategories.Fold | scripts/convert-categories.js:15-34 | the reduce over all rows ends with a consistent object, or with an error naming an inherited property |
| ConvertCategories.Group | scripts/convert-categories.js:15-34 | the row-by-row reduce loop computes exactly the fold specification, including the first throw |
| ConvertCategories.Dedup | scripts/convert-categories.js:24-26 | the names in order of first appearance: no duplicates, same members |
| ConvertCategories.FoldKeys | scripts/convert-categories.js:15-34 | the reduce succeeds iff no valid row names an inherited property; the object's keys are then the distinct valid names in first-appearance order, each with a list |
| ConvertCategories.FoldItems | scripts/convert-categories.js:24-31 | the list under each name holds exactly the items of the valid rows with that name, in row order, each with the slug of its item name as id |
| ConvertCategories.FoldTotal | scripts/convert-categories.js:19-31 | the lists together hold one item per valid row: rows with an empty cell are dropped and no valid row is lost or counted twice |
| ConvertCategories.InsertByIndex | scripts/convert-categories.js:37 | inserting an array-index key adds exactly that key |
| ConvertCategories.InsertByIndexSorted | scripts/convert-categories.js:37 | insertion keeps array-index keys in ascending numeric order |
| ConvertCategories.SortByIndex | scripts/convert-categories.js:37 | sorting the array-index keys is a permutation of them |
| ConvertCategories.SortByIndexSorted | scripts/convert-categories.js:37 | the sorted array-index keys ascend numerically |
| ConvertCategories.IndexAndOtherKeys | scripts/convert-categories.js:37 | array-index keys and the other keys partition the object's keys |
| ConvertCategories.OtherKeysAll | scripts/convert-categories.js:37 | with no array-index keys, every key is an "other" key, in insertion order |
| ConvertCategories.EntriesOrder | scripts/convert-categories.js:37 | the order in which Object.entries lists the grouped object's keys; EntriesOrderSpec proves it lists every key once, array-index keys ascending first, then the others in insertion order |
| ConvertCategories.EntriesOrderSpec | scripts/convert-categories.js:37 | Object.entries lists every key once: first the array-index keys, ascending, then the others in insertion order; with no array-index key, entries order is insertion order |
| ConvertCategories.EntriesOrderMembers | scripts/convert-categories.js:37 | entries lists only keys of the object |
| ConvertCategories.Categories | scripts/convert-categories.js:37-41 | every output category is `{id: slug(name), name, items}` for a key of the grouped object and the list under that key |
| ConvertCategories.Convert | scripts/convert-categories.js:15-56 | the conversion either fails with the error of an inherited name, caught at line 54, or yields categories whose ids are the slugs of their names |
| ConvertCategories.ConvertFails | scripts/convert-categories.js:24-28 | the conversion fails iff some valid row names an inherited property, and the error names such a property |
| ConvertCategories.ConvertItems | scripts/convert-categories.js:28-41 | each output category's id is the slug of its name, and its items are the items of that name's valid rows, in row order |
| ConvertCategories.ConvertNames | scripts/convert-categories.js:37-41 | the output names are the distinct valid Category names, each exactly once, in Object.entries order of first appearance |
| ConvertCategories.FoldTwoNames | scripts/convert-categories.js:15-34 | two valid rows with different ordinary names start two one-item groups, in row order |
| ConvertCategories.RawNamesGroupSeparately | scripts/convert-categories.js:24-41 | grouping is by raw name: two different names give two categories even if their slug ids coincide |
| ConvertCategories.ArtAndArtShareSlug | scripts/convert-categories.js:38 | "Art" and "art" are different names with the same id "art" |
| CategoryFilter.Without | client/src/components/CategoryFilter.tsx:52 | filtering out an id removes every copy of it and adds nothing |
| CategoryFilter.IsChecked | client/src/components/CategoryFilter.tsx:73 | a checkbox is checked when its id is in the selection; ToggleFlips proves that toggling flips exactly this for the toggled id |
| CategoryFilter.Toggle | client/src/components/CategoryFilter.tsx:50-55 | a selected id is removed entirely; an unselected id is appended at the end |
| CategoryFilter.WithoutCounts | client/src/components/CategoryFilter.tsx:52 | filtering keeps the number of copies of every other id |
| CategoryFilter.WithoutAbsent | client/src/components/CategoryFilter.tsx:52 | filtering out an absent id changes nothing |
| CategoryFilter.WithoutAppend | client/src/components/CategoryFilter.tsx:52 | filtering works piecewise over a concatenation |
| CategoryFilter.WithoutKeepsNoDup | client/src/components/CategoryFilter.tsx:52 | filtering a duplicate-free selection keeps it duplicate-free |
| CategoryFilter.ToggleFlips | client/src/components/CategoryFilter.tsx:50-55 | toggling flips the checkbox of the toggled id and no other |
| CategoryFilter.ToggleKeepsOthers | client/src/components/CategoryFilter.tsx:50-55 | the other ids keep their order and number of copies |
| CategoryFilter.ToggleTwiceAbsent | client/src/components/CategoryFilter.tsx:50-55 | toggling an unselected id twice restores the selection |
| CategoryFilter.ToggleTwiceSelected | client/src/components/CategoryFilter.tsx:50-55 | toggling a selected id twice need not restore the selection: duplicates collapse, and the id moves to the end |
| CategoryFilter.ToggleKeepsNoDup | client/src/components/CategoryFilter.tsx:50-55 | toggling keeps a duplicate-free selection duplicate-free |
| UserSettings.JsLength | client/src/pages/UserSettings.tsx:14-21 | JavaScript length counts UTF-16 code units, at least one per character |
| UserSettings.MinIssues | client/src/pages/UserSettings.tsx:14-21 | `min(n, message)` reports nothing iff the length is at least n, else exactly one issue on its field with its message |
| UserSettings.ProfileIssues | client/src/pages/UserSettings.tsx:13-16 | the profile schema reports at most one issue per field, each on firstName or lastName, so at most two; ProfileAcceptedIff gives when it reports none |
| UserSettings.PasswordIssues | client/src/pages/UserSettings.tsx:18-25 | the password schema reports at most four issues, each on one of its three fields; PasswordAcceptedIff gives when it reports none |
| UserSettings.ProfileAcceptedIff | client/src/pages/UserSettings.tsx:13-16 | the profile is accepted iff both names are non-empty; each empty name is reported with its own message |
| UserSettings.PasswordAcceptedIff | client/src/pages/UserSettings.tsx:18-25 | the password form is accepted iff all three fields have at least 6 code units and the new password equals the confirmation |
| UserSettings.ShortCurrentRejected | client/src/pages/UserSettings.tsx:19 | a current password shorter than 6 is rejected with "Current password is required" |
| UserSettings.ShortNewOrConfirmRejected | client/src/pages/UserSettings.tsx:20-21 | a short new password or confirmation is rejected, each with its own message |
| UserSettings.MismatchRejected | client/src/pages/UserSettings.tsx:22-25 | a mismatch is reported on confirmPassword as "Passwords do not match", whatever the lengths |
| UserSettings.ReuseOfCurrentAccepted | client/src/pages/UserSettings.tsx:18-25 | nothing forbids choosing the current password as the new one |
| PasswordHash.Hex | server/auth.ts:15-17 | hex encoding writes two lower-case digits per byte and never a '.' |
| PasswordHash.FromHex | server/auth.ts:21 | hex decoding yields at most one byte per two characters |
| PasswordHash.FromHexOfHex | server/auth.ts:17-21 | decoding the hex that `hash` wrote gives back the bytes |
| PasswordHash.Split | server/auth.ts:20 | split on '.' gives at least one piece, no piece holds '.', and joining the pieces gives back the string |
| PasswordHash.SplitOfJoin | server/auth.ts:17-20 | splitting joined '.'-free pieces gives back the pieces |
| PasswordHash.SplitPieces | server/auth.ts:20 | split yields a second piece, the salt, exactly when the record holds a '.' |
| PasswordHash.Hash | server/auth.ts:14-18 | the record is 129 + 2·salt-length characters and splits into exactly the hash hex and the salt hex |
| PasswordHash.Compare | server/auth.ts:19-28 | compare throws for want of a salt exactly when the record has no '.', and answers only when the stored hash decodes to 64 bytes, the length scrypt yields |
| PasswordHash.HashFormat | server/auth.ts:15-17 | with a 16-byte salt the record is 161 characters: 128 lower-case hex digits, '.', 32 lower-case hex digits |
| PasswordHash.CompareAgainstHash | server/auth.ts:19-28 | comparing against a record written by `hash` never throws, and answers whether scrypt of the supplied password with that salt equals the stored key |
| PasswordHash.CompareOwnHash | server/auth.ts:19-28 | `compare(pw, hash(pw))` is true |
| Auth.AppendFresh | server/auth.ts:126-143 | inserting a row with a new email and a new id keeps both unique |
| Auth.Find | server/auth.ts:66-71 | a `where` lookup on email or id finds no row iff none matches, and otherwise a matching row of the table |
| Auth.FindOnlyMatch | server/auth.ts:98-103 | a row that is the only one matching a key is the one the lookup returns |
| Auth.OnlyMatch | server/auth.ts:66-69 | with unique emails (or ids), a user is the only row with their email (or id) |
| Auth.Verify | server/auth.ts:64-88 | a successful login returns a table row with that email; "Incorrect email." is returned iff no user has the email |
| Auth.SerializeUser | server/auth.ts:92-94 | the session keeps only the user's id; SessionRoundTrip proves the id brings the same user back |
| Auth.VerifyKnownEmail | server/auth.ts:76-87 | for a known email, login succeeds iff compare is true, says "Incorrect password." iff compare is false, and errs iff compare throws |
| Auth.DeserializeUser | server/auth.ts:96-108 | deserializing is the id lookup: by Find's contract it gives no user (`false`) iff no row has the id, else a row with that id |
| Auth.SessionRoundTrip | server/auth.ts:92-108 | a user put in the session by id comes back unchanged while they are in the table |
| Auth.FieldIssues | server/auth.ts:117-121 | a `z.string()` field raises no issue iff it is a string |
| Auth.JoinMessages | server/auth.ts:121 | the issue messages joined with ", "; JoinMessagesLayout and EmptyBodyMessage prove what the 400 text holds |
| Auth.JoinMessagesLayout | server/auth.ts:121 | the joined text is two characters longer per separator than the messages together, starts with the first message and ends with the last |
| Auth.ParseRegister | server/auth.ts:117-124 | the body parses iff email and password are both strings, and then yields them |
| Auth.EmptyBodyMessage | server/auth.ts:117-121 | an empty body is answered "Invalid input: Required, Required" |
| Auth.UserTable.constructor | db/schema.ts:5-10 | the table starts empty with the serial counter at 1 |
| Auth.UserTable.Register | server/auth.ts:115-143 | a malformed body or a taken email leaves the table unchanged with its 400 message; otherwise, when the database answers, exactly one row is appended, with the next serial id, the email and the hashed password; emails and ids stay unique; the new user can log in with the password just given, and the stored record is the hash record, never a plaintext of another length |
| Auth.LoginAfterRegister | server/auth.ts:64-83 | after registration appends a row, logging in with the same email and password returns that row, and its session id resolves to it |
| Auth.RegisteredRecordFormat | server/auth.ts:135-143 | with a 16-byte salt the stored password is the 161-character record that splits into hash hex and salt hex, so it differs from every plaintext password that is not 161 characters long |

## Left out

- The borrowing and reservation rules of the lending engine are left out. The `borrowings` table exists (db/schema.ts:21-28), but no handler in the repository reads or writes it, so there is no code to model.
- HTTP and session plumbing is left out: Express request and response handling, passport and memorystore configuration (server/auth.ts:38-59), `/api/logout` and `/api/user` (server/auth.ts:183-198).
- `/api/login` (server/auth.ts:161-181) is left out. passport-local first reads `email` and `password` from the body or the query string; when either is missing or empty it answers 400 "Missing credentials" without calling the verify callback. Only the verify callback is modelled.
- `req.login` failing after registration (server/auth.ts:145-149) is left out: it is session I/O.
- The posts and books routes (server/routes.ts) are left out: they are database I/O.
- scrypt and `randomBytes` are left out. They are parameters, and the model assumes only that scrypt is a function returning 64 bytes. `timingSafeEqual` is modelled as its length check followed by byte equality; its constant-time behaviour is not modelled.
- Auth.UserTable.Register: the check-then-insert race between concurrent registrations is left out. It is concurrency, and the unique constraint at db/schema.ts:7 is the backstop.
- Auth.UserTable.Register: the id is a PostgreSQL `serial` (db/schema.ts:6), a 4-byte integer whose sequence ends at 2147483647; an insert after that fails. `nextId` is unbounded, so the model's registration never fails for want of an id.
- Auth.UserTable.Register: the optional `id` and `createdAt` fields of the insert schema are left out. The handler never inserts them, and their own type checks are not modelled.
- Auth.ParseRegister: the insert schema's optional `id` and `createdAt` fields are not part of the modelled body, so their type checks are left out. A body such as `{"id":"x","email":"a","password":"b"}` fails `safeParse` in the source with "Expected number, received string"; the model cannot represent that body, and parses the email and password it does represent.
- Auth.User: `createdAt` is left out. It is a clock value.
- Auth.Verify: database errors are left out. Only a throwing `compare` is modelled as `Errored`.
- Auth.UserTable.Register: database errors are left out. The model's database always answers, so a well-formed body with a new email always appends a row. In the source a failing select or insert (server/auth.ts:126-143) is caught at lines 155-158 and passed on with `next(error)`, and no row is added. One such input: PostgreSQL refuses U+0000 in a `text` parameter, so an email holding that character makes the select throw.
- Auth.DeserializeUser: database errors are left out. The model's lookup always answers. In the source a failing select (server/auth.ts:98-102) is caught at lines 109-112 and answered with `done(err)`, for example when PostgreSQL refuses the query.
- Reading the workbook and writing `categories.json` (scripts/convert-categories.js:8-10, 43-50) are left out: they are file I/O. Console logging is left out too.
- Spreadsheet cells that are not strings (numbers, dates) are left out. Cells are modelled as strings or absent.
- Slug.LowerChar: full Unicode `toLowerCase` is left out. Only the characters whose lower case can contain [a-z0-9] are mapped; every other character is kept, and its lower case would lie outside [a-z0-9] either way, so slugs are the same.
- The submit handlers of the settings forms (client/src/pages/UserSettings.tsx:52-116) and their rendering (client/src/pages/UserSettings.tsx:118-236) are left out. The handlers call `/api/user/profile` and `/api/user/password`, which the server does not define.
- react-hook-form showing only the first issue per field is left out. The model yields all issues in schema order.
- The category filter's JSON fetch and its accordion rendering are left out: they are I/O and UI.
- The age-group data (client/src/lib/developmental-stages.ts, client/src/components/AgeGroupSelector.tsx) is left out: it is static. Its keys do not match: the selector sends "0-2 years" while the stages are keyed "infant" and so on.
- The URL query building in client/src/pages/BookDiscovery.tsx is left out: it is a thin use of `URLSearchParams`.
