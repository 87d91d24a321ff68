# SecureDocs: access control and record keeping, in Dafny

SecureDocs is a document-sharing portal. Administrators upload PDF and image
files and create access keys. An access key lets someone without an account
list every document. This project models the logic behind the REST handlers:

- the record store, with its three tables (users, documents, access keys);
- the session gate in front of every admin operation;
- the two-step access-key gate of the public list;
- how an upload becomes a document row;
- the generated-key default and the validation of a new access key;
- the seed administrator;
- `buildUrl`, which fills the `:id` placeholders of the shared endpoint table;
- the admin documents page's search filter and the default title it sends with an upload.

Files and modules:

- `wrappers.dfy` (`Wrappers`): `Option` and `Result`.
- `text.dfy` (`Text`): the JavaScript string operations the core uses: `indexOf`, `includes`, `startsWith`, `replace` with a string pattern (including its `$` replacement patterns), ASCII `toLowerCase`, `String(n)` for integers, `split(sep)[0]`, and hex encoding.
- `sequences.dfy` (`Sequences`): subsequence and reversal.
- `schema.dfy` (`Schema`): row shapes, insert shapes, and the access-key insert schema's `parse`.
- `storage.dfy` (`Storage`): class `Store`. It holds the tables as sequences in insertion order, the `serial` id counters and the database clock. The methods that insert or delete change those fields in place. The queries are functions that read the store.
- `routes.dfy` (`Routes`): the handlers. Handlers that only read the store are functions over it. Handlers that write are methods that modify it. `req.isAuthenticated()` is a boolean input.
- `api.dfy` (`Api`): the endpoint table and `BuildUrl`, a loop over the parameters proved against `ApplyParams`.
- `documents_page.dfy` (`DocumentsPage`): `FilterDocuments` and `DefaultTitle`.

Behaviour of the code worth knowing:

- A duplicate access key makes the insert fail with a database error. The handler's `catch` handles only validation errors and rethrows everything else. So the model answers `Threw(DuplicateAccessKey)`, not a client error.
- Lists are ordered by `createdAt` descending, and two rows can carry the same timestamp. The model proves non-increasing order, not strictly descending order.
- `buildUrl` fills a placeholder with `String.replace`, so a string param containing `$&`, `` $` ``, `$'` or `$$` is expanded by those patterns, not inserted as written. `Api.Substitute` models the expansion.
- The endpoint table declares a 404 answer for deleting a document. The handler always answers 204.

## Model

| member | source | states |
|---|---|---|
| `Schema.ParseInsertAccessKey` | shared/schema.ts:20-31 | the access-key insert accepts a body iff `key` is a string and `label` is missing, null or a string; the row takes that key, and a label only when a string was sent; each rejection names its field |
| `Schema.ParseReadsOnlyKeyAndLabel` | shared/schema.ts:31 | bodies that agree on `key` and `label` parse the same, so `id`, `createdAt` and `isActive` cannot be supplied |
| `Schema.ParseBodyOf` | shared/schema.ts:22-23 | an insert sent as a body parses back to itself (required key, optional label) |
| `Storage.FindBy` | server/storage.ts:61-64 | the lookup returns a row carrying the value, and returns none only when no row carries it |
| `Storage.RemoveBy` | server/storage.ts:71-73 | a delete keeps exactly the rows that do not carry the value, in their order; deleting a value no row carries changes nothing |
| `Storage.RemoveByCount` | server/storage.ts:89-91 | deleting by a unique column removes exactly one row when the value is present and none otherwise |
| `Storage.RemoveByKeepsUnique` | shared/schema.ts:22 | deleting rows keeps every unique column unique |
| `Storage.RemoveByKeepsChronological` | shared/schema.ts:24 | deleting rows keeps the remaining rows in timestamp order |
| `Storage.ReverseIsNewestFirst` | server/storage.ts:57-59 | rows stamped in insertion order, read back to front, are newest first and are the same rows |
| `Storage.UniqueCount` | shared/schema.ts:7 | a unique column holds a value exactly once when it is found, and never otherwise |
| `Storage.UniqueRow` | shared/schema.ts:7 | two rows that agree on a unique column are the same row |
| `Storage.HashPassword` | server/storage.ts:34-38 | the stored password is the derived key's hex, a dot, and 32 hex digits of salt; split at the first dot it gives back exactly those two parts, so the password itself is not stored |
| `Storage.InsertDocumentKeepsTables` | shared/schema.ts:11-18 | a document inserted with the next `serial` id and a `defaultNow()` stamp keeps ids unique and stamps in order, and is the newest row |
| `Storage.InsertAccessKeyKeepsTables` | shared/schema.ts:20-26 | an access key no row holds, inserted with the next id and a current stamp, keeps ids and keys unique and stamps in order, and is the newest row |
| `Storage.Store.constructor` | server/storage.ts:94 | a new store has empty tables and meets the table constraints |
| `Storage.Store.GetUser` | server/storage.ts:41-44 | the user with that id, or none when no user has it |
| `Storage.Store.GetUserByUsername` | server/storage.ts:46-49 | the one user with exactly that name, or none |
| `Storage.Store.CreateUser` | server/storage.ts:51-55 | a taken username fails and changes no field at all; otherwise one user is appended with the next id and the salted hash in place of the password, and only the user table and its id sequence move |
| `Storage.Store.Documents` | server/storage.ts:57-59 | every stored document, each as often as stored, newest first |
| `Storage.Store.GetDocument` | server/storage.ts:61-64 | the one document with that id, or none |
| `Storage.Store.CreateDocument` | server/storage.ts:66-69 | appends one row with the supplied fields, the next id and the current time; it is in the listed documents and no document is newer; the other tables and their id sequences are untouched |
| `Storage.Store.DeleteDocument` | server/storage.ts:71-73 | afterwards the id resolves to nothing; every other document stays; the table shrinks by one exactly when the id existed; a missing id changes nothing; the id sequences and the clock do not move, so a deleted id is never handed out again |
| `Storage.Store.AccessKeys` | server/storage.ts:75-77 | every stored key, each as often as stored, newest first |
| `Storage.Store.GetAccessKey` | server/storage.ts:79-82 | the one row whose key equals the argument exactly, or none |
| `Storage.Store.CreateAccessKey` | server/storage.ts:84-87 | a key already stored fails and changes no field at all; otherwise one row is appended with the supplied key and label, the next id, the current time and `isActive` true; it is in the listed keys and no key is newer; the other tables and their id sequences are untouched |
| `Storage.Store.DeleteAccessKey` | server/storage.ts:89-91 | removes only the row with that id, keeps every other key, and the deleted token no longer resolves; the id sequences and the clock do not move |
| `Routes.DocumentFromUpload` | server/routes.ts:55-60 | the title is the form's title unless it is missing or empty, else the original name; the type is `image` iff the MIME type starts with `image/`, else `pdf`; the url is `/uploads/` plus the stored name |
| `Routes.WithGeneratedKey` | server/routes.ts:83-86 | a body whose key is falsy gets the generated key, a truthy key is kept, and no other field changes |
| `Routes.AccessKeyInput` | server/routes.ts:83-89 | a new key is accepted iff the label is acceptable and the key is either falsy (then the generated key is used) or a string (then it is used, and it is non-empty) |
| `Routes.ListDocuments` | server/routes.ts:42-46 | 401 without a session; otherwise every document, newest first |
| `Routes.CreateDocument` | server/routes.ts:48-63 | 401 without a session and 400 without a file, both leaving the store unchanged; otherwise one row built from the upload, with the next document id and the advanced clock, is added and answered 201, and the other id sequences stay; documents stay pdf or image |
| `Routes.DeleteDocument` | server/routes.ts:65-69 | 401 without a session and no change; otherwise 204 whether or not the id existed, and the id no longer resolves; the users, the keys, every id sequence and the clock stay as they were |
| `Routes.ListAccessKeys` | server/routes.ts:72-76 | 401 without a session; otherwise every key, newest first |
| `Routes.CreateAccessKey` | server/routes.ts:78-98 | 401 without a session, or 400 with the schema's issues, leave the store unchanged; a duplicate key throws and adds nothing; otherwise one active key with the next key id and the advanced clock is added and answered 201, and the other id sequences stay |
| `Routes.DeleteAccessKey` | server/routes.ts:100-104 | 401 without a session and no change; otherwise 204, the row is gone, and its token now gets the invalid-key refusal; the users, the documents, every id sequence and the clock stay as they were |
| `Routes.PublicListDocuments` | server/routes.ts:107-118 | a missing or empty key gives "Access key required"; the full newest-first list comes back iff an active row has exactly that key; a non-empty key with no active row gives the one "Invalid or expired access key" answer, and "Access key required" comes only for a missing or empty key |
| `Routes.SeedAdmin` | server/routes.ts:120-128 | creates `admin` only when absent, so afterwards exactly one `admin` exists; when one existed nothing changes, so a second run is a no-op |
| `Api.BuildUrl` | shared/routes.ts:114-124 | without params the path comes back unchanged; with params the result is the params applied in order to the progressively rewritten url |
| `Api.SubstituteFirstOccurrence` | shared/routes.ts:117-121 | a param whose placeholder is absent leaves the url alone; otherwise, for a value without `$`, the first occurrence, and only it, becomes the value's string form |
| `Api.NoPlaceholderFixedPoint` | shared/routes.ts:118 | a url without `:` is left unchanged by any params |
| `Api.FillTrailingPlaceholder` | shared/routes.ts:118-119 | a trailing `:name` after a `:`-free prefix is replaced by the value, for a value without `$` |
| `Api.DeleteDocumentUrl` | shared/routes.ts:70 | the delete-document url for id n is `/api/documents/` and n in decimal |
| `Api.DeleteAccessKeyUrl` | shared/routes.ts:106 | the delete-access-key url for id n is `/api/access-keys/` and n in decimal |
| `Api.RepeatedPlaceholderKeepsSecond` | shared/routes.ts:119 | a placeholder occurring twice has only its first occurrence replaced |
| `Api.FixedEndpointsIgnoreParams` | shared/routes.ts:20-112 | every endpoint without `:id` is its own url, whatever params are passed |
| `Text.ReplaceFirstVerbatim` | shared/routes.ts:119 | `replace` with a `$`-free value leaves a url without the pattern alone, and otherwise exchanges exactly the first occurrence |
| `Text.SubstitutionVerbatim` | shared/routes.ts:119 | a replacement text without `$` is inserted verbatim |
| `Text.DigitsRoundTrip` | shared/routes.ts:119 | the decimal string of an id reads back as that id |
| `Text.NumberToString` | shared/routes.ts:119 | `String(n)` for an integer: only decimal digits, after a leading `-` for a negative number, reading back as n, and no leading zero except in `0` itself |
| `Text.SplitJoin` | server/storage.ts:37 | `a.b` with a dot-free `a` splits at its first dot into `a` and `b` |
| `DocumentsPage.FilterDocuments` | client/src/pages/admin-documents.tsx:53-56 | a document is kept iff its lower-cased title or file name contains the lower-cased search |
| `DocumentsPage.FilterCounts` | client/src/pages/admin-documents.tsx:53-56 | a kept document appears as often as in the loaded list, a dropped one not at all |
| `DocumentsPage.FilterKeepsOrder` | client/src/pages/admin-documents.tsx:53 | the result is an order-preserving subsequence of the loaded list |
| `DocumentsPage.EmptySearchKeepsAll` | client/src/pages/admin-documents.tsx:53-56 | an empty search keeps every document |
| `DocumentsPage.FilterIgnoresCase` | client/src/pages/admin-documents.tsx:54-55 | searches that differ only in letter case give the same result |
| `DocumentsPage.FilterOnLowerCase` | client/src/pages/admin-documents.tsx:54-55 | searching for the lower-cased text is the same search |
| `DocumentsPage.DefaultTitle` | client/src/pages/admin-documents.tsx:66 | the title is the name up to its first dot: it holds no dot, a dot-free name is its own title, and a name starting with a dot gives an empty title |
| `DocumentsPage.UploadedTitle` | server/routes.ts:56 | an upload from the page is stored under its default title, or its whole file name when that title is empty; it is never empty for a non-empty name |

## Left out

- Session authentication (passport, login, logout, `/api/user`): it is set up in `server/auth`, which is not part of this model. `req.isAuthenticated()` is an input.
- Password verification at login is in the same unseen module. `Storage.HashPassword` states only what is stored and how it splits back.
- `scrypt` and `randomBytes` are inputs. The key derivation is a function parameter (`KeyDerivation`), and the salt is 16 given bytes. The 64-byte derived-key length is not constrained.
- Other randomness is also an input: the server's generated key (`generated`) and the stored upload name (`UploadedFile.filename`).
- Multer's disk storage, the 10 MB limit, the uploads directory and static serving are file-system I/O. An upload is only its record: original name, MIME type and stored name.
- Express routing, body parsing, logging and the global error handler are not modelled. A rethrown error is `Threw`. What the client then receives is up to the framework.
- The database clock is modelled as `Store.clock`. Each insert passes `elapsed: nat`, so the clock never runs backwards. The column is nullable, but the model always sets it.
- Rows with equal `createdAt` have no defined order under `orderBy(desc(createdAt))`. The model lists them in reverse insertion order, but its contracts promise only non-increasing order and that a new row is among the newest.
- An upload is parsed and written to disk before the session check, so an unauthenticated upload still leaves its file behind. Where a route contract says the store is unchanged, it means the database tables only.
- Concurrency is not modelled. Inserts are sequential, so the uniqueness constraints are checked one insert at a time.
- Storage.Store.CreateUser: a failed insert does not consume an id. PostgreSQL's `serial` would still advance its sequence.
- Storage.Store.CreateAccessKey: same as above: a failed insert does not consume an id.
- `users.id`, which the user insert schema would accept from a caller, is not modelled. The only caller, the seed step, never sends it.
- Ids are unbounded integers. `Number(req.params.id)` yielding `NaN` for non-numeric text is not modelled.
- Numbers in JSON bodies and URL params are integers only. Fractions and `NaN` are not modelled. `String(n)` switching to exponent form at 1e21 is not modelled.
- A repeated `key` query parameter arrives as an array. It is not modelled. `key` is a string or missing.
- Zod's issue objects are reduced to which field failed. Other validation messages are not modelled.
- `Object.entries` puts integer-like keys first. `BuildUrl` takes the entries in the order given.
- `toLowerCase` is modelled for ASCII letters only. Unicode case mapping is not.
- The page's `documents` being undefined while loading is not modelled. The filter takes a loaded list.
- React rendering, dialogs and toasts are UI. So are the QR-code download, the clipboard, and the client-side key generation on the access-keys page.
- Network hooks and cache invalidation are not modelled either.
