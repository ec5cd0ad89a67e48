# Task tracker core, modelled in Dafny

The tracker has three parts. A browser client (`web/app.js`) logs users in.
It lists and edits work items, and it accepts a block of pasted
spreadsheet lines as a batch of new items. An Express API server
(`api/server.js`) stores users and items in SQLite. An authentication
module (`api/auth.js`) issues signed session tokens and guards the routes.

This project models the logic that decides what happens. It covers:

- the client's `parseBulk` parser and `escapeHtml` encoder;
- the client's checks before it sends a login, a registration, a new item
  or a batch;
- the server's login, registration, item list, create, update, delete and
  bulk handlers, as pure transitions over an abstract store;
- the start-up seeding of the master administrator, over whatever the
  database file (`./data.sqlite`, kept across restarts) already holds;
- the bearer-token gate and the admin role gate.

Modules:

- `Options`, `Strings`, `Seqs`: JavaScript's `||` on optional strings,
  `trim` (with the exact ECMAScript whitespace set), ASCII `toLowerCase`,
  `split`, `join`, literal `replaceAll`, and `filter`, `map` and reversal.
- `HtmlEscape`: `escapeHtml` and the decoder that undoes it.
- `BulkPaste`: `parseBulk`, line by line.
- `Entities`: the item and user rows, token claims and response bodies.
- `Auth`: `signToken`'s claims, `authMiddleware` and `requireAdmin`.
- `Items`: the `items` table as a sequence in insertion order plus an
  autoincrement counter, and the five item routes.
- `Users`: the `users` table as a map keyed by email plus a counter,
  login, registration and seeding.
- `Server`: one dispatcher that runs the gates and then the route.
- `Client`: the requests the browser builds, followed through the server.

Cryptography, time and the database are outside the model. The current
time is a `now` string parameter. Token verification is an oracle
`verify: string -> Option<Claims>`, which stands for signature and expiry
checking. Password hashing is `hash: string -> string`, comparison is
`matches`, and token signing is `sign`.

Request fields are `Option<string>`. An absent field is `None`. For
create and bulk, `None` and `""` both take the default, as with
JavaScript's `||`. For update, only `None` keeps the old value.
`Number(req.params.id)` arrives already parsed as an `IdParam`: not a
number, an integer, or a number with a fraction.

Where the code and a natural reading of the API differ, the model follows
the code:

- `POST /items` answers `{ok: true}`, not the new row.
- `DELETE /items/:id` answers 400 for id 0 or a non-number, and `{ok: true}`
  whether or not a row was removed.
- `POST /items/bulk` answers `{inserted}` with a count.
- A whitespace-only `status` on create or bulk is stored as `""`. The
  whitespace is truthy, so the "New" default does not apply, and trimming
  empties it. `parseBulk` gives "New" for the same column, because it
  trims first.

## Model

| member | source | states |
|---|---|---|
| Strings.Trim | web/app.js:219 | `trim` returns a trimmed infix of the input; only whitespace lies outside it; the result is empty exactly when the input is all whitespace; trimmed input comes back unchanged |
| Strings.LowerChar | api/server.js:55 | an ASCII capital becomes the small letter 32 code points above it; every other character is kept |
| Strings.ToLower | api/server.js:55 | `toLowerCase` keeps the length and folds each ASCII capital to its small letter |
| Strings.Split | web/app.js:224-226 | `split` on one character gives at least one piece, and no piece holds the separator |
| Strings.JoinSplit | web/app.js:224-226 | joining the pieces of a split with the separator gives back the text |
| Strings.SplitJoin | web/app.js:224-226 | splitting the join of separator-free pieces gives back the pieces |
| Strings.SplitConcat | web/app.js:224-226 | splitting text glued at a separator splits each side on its own |
| Strings.StartsWith | api/auth.js:20 | `startsWith` holds exactly when the prefix matches the text position by position, and then the text is the prefix followed by the rest |
| Strings.Contains | api/server.js:140 | an empty term occurs in every text, and a term longer than the text never occurs |
| Strings.ContainsIffOccurs | api/server.js:140 | the term occurs exactly when it starts at some position of the text |
| Strings.ReplaceAllWithoutMatch | web/app.js:27-30 | `replaceAll` with a non-empty pattern leaves text without an occurrence unchanged; its effect on each pass is pinned by HtmlEscape.EncodePass and HtmlEscape.DecodePass |
| Options.OrElseTruthiness | api/server.js:155-157 | JavaScript `x || fallback`, as `Options.OrElse` computes it: the result is one of the two operands, a non-empty value wins, and the result is empty only when both are absent or empty |
| Seqs.Filter | web/app.js:237 | `filter` gives a subsequence of the input holding exactly the elements that satisfy the predicate, and keeps everything when all satisfy it |
| Seqs.FilterCounts | web/app.js:237 | `filter` keeps every occurrence of a satisfying element and no occurrence of any other; with the subsequence property this fixes the result |
| Seqs.Map | web/app.js:228 | `map` keeps the length and applies the function at every index |
| Seqs.Reverse | api/server.js:141 | reversal puts element `k` at position `n - 1 - k` |
| HtmlEscape.EscapeHtml | web/app.js:25-31 | the four `replaceAll` passes are the same as encoding each character on its own: `&`, `<`, `>` and `"` become entities and nothing else changes |
| HtmlEscape.EncodePass | web/app.js:27-30 | each pass turns the text left by the earlier passes into the text encoded up to that pass |
| HtmlEscape.DecodePass | web/app.js:27-30 | decoding one entity undoes its pass, because every `&` left in the text starts an entity that differs in its second character |
| HtmlEscape.EscapeRoundTrip | web/app.js:26-30 | decoding `&quot;`, `&gt;`, `&lt;`, `&amp;` in that order on `escapeHtml(s)` gives back `s` for every `s` |
| HtmlEscape.EscapeLeavesNoMarkup | web/app.js:27-30 | the output of `escapeHtml` holds no `<`, `>` or `"` |
| HtmlEscape.EscapeKeepsPlainText | web/app.js:26-30 | text without `&`, `<`, `>` and `"` passes through unchanged |
| BulkPaste.Lines | web/app.js:217-218 | splitting on `\r?\n` gives at least one line, and no line holds a line feed |
| BulkPaste.LfRoundTrip | web/app.js:218 | lines joined with bare line feeds are read back exactly |
| BulkPaste.CrLfRoundTrip | web/app.js:218 | lines joined with CR LF, as spreadsheets copy them, are read back exactly; no carriage return reaches a line |
| BulkPaste.NonBlankLines | web/app.js:217-220 | the lines kept are the non-empty trimmed lines, in their original order, each as often as it occurs, each trimmed |
| BulkPaste.Separator | web/app.js:224-226 | the separator is tab if the line has one, else `;` if it has one, else `,` |
| BulkPaste.ParseLine | web/app.js:224-234 | a line's row has the trimmed first column as title; a missing or empty second column gives "New", a missing or empty third gives ""; every field is trimmed and the status is never empty |
| BulkPaste.ExtraColumnsIgnored | web/app.js:230-234 | columns past the third never change the row |
| BulkPaste.ParseBulk | web/app.js:215-238 | the rows are the parsed non-blank lines with a non-empty title, in line order, a repeated line giving a repeated row |
| BulkPaste.ParsedRowsTrimmed | web/app.js:228-237 | every row has a non-empty title and a non-empty status, and no field keeps surrounding whitespace |
| BulkPaste.ParseBulkComplete | web/app.js:237 | every non-blank line with a title yields a row in the result |
| Auth.SignedClaims | api/auth.js:5-16 | the token claims are the user's id as subject, the email, the role, and the master flag as a boolean |
| Auth.BearerToken | api/auth.js:19-20 | a token exists exactly when the header starts with the case-sensitive `Bearer `, and it is the header without those seven characters |
| Auth.BearerRoundTrip | api/auth.js:20 | the token after `Bearer ` is read back unchanged |
| Auth.Authenticate | api/auth.js:18-30 | no token or an empty one gives 401 "Token ausente"; a token the verifier rejects gives 401 "Token inválido"; otherwise the request goes on with the verifier's claims |
| Auth.BarePrefixIsMissingToken | api/auth.js:20-22 | a header of exactly `Bearer ` is refused as a missing token |
| Auth.LowercaseSchemeIsMissingToken | api/auth.js:20-22 | `bearer <token>` in lower case is refused as a missing token |
| Auth.RequireAdmin | api/auth.js:32-37 | the request goes on exactly when the role is `ADMIN`; otherwise 403 "Acesso somente para admin" |
| Items.Lookup | api/server.js:180-181 | the lookup finds a row with the requested id, or reports that no row has it |
| Items.NewItemFields | api/server.js:155-157 | a new row has the trimmed title; status "New" when absent or empty, else trimmed; owner "" when absent or empty, else trimmed |
| Items.Matches | api/server.js:135-140 | an empty term matches every row, and a term longer than the title, the status and the owner matches none |
| Items.NewItem | api/server.js:162-166 | a new row carries the given id and `now` as both timestamps; its fields are stated by Items.NewItemFields |
| Items.Insert | api/server.js:162-166 | an insert appends one row under the counter's id and advances the counter, keeping ids increasing |
| Items.Create | api/server.js:153-172 | a title that trims to empty gives 400 and no change; otherwise `{ok:true}` and exactly one appended row with a fresh id, both timestamps `now` |
| Items.List | api/server.js:133-150 | the list holds exactly the rows matching the trimmed query, or all rows when it is empty, in strictly decreasing id order |
| Items.Merge | api/server.js:183-185 | an absent field keeps its old value, and a null owner becomes ""; a present field is trimmed and replaces it; id and creation time stay, `updated_at` is `now` |
| Items.Update | api/server.js:175-199 | id 0 or non-number gives 400; an unknown id gives 404; an empty merged title gives 400; each error leaves the table unchanged; on success only rows with that id change, to the merged row, which is returned |
| Items.Delete | api/server.js:202-212 | id 0 or non-number gives 400; otherwise `{ok:true}`, rows with the id are gone and every other row stays in order |
| Items.DeleteIdempotent | api/server.js:204-208 | deleting the same id twice equals deleting it once |
| Items.NewItemsAt | api/server.js:225-236 | row `j` of a batch has id `first + j`, the fields of input `j`, and the batch timestamp |
| Items.InsertRows | api/server.js:222-239 | the loop inserts as many rows as have a title that trims to non-empty and advances the counter by that count |
| Items.InsertRowsAppendsAdmissible | api/server.js:225-239 | the loop appends exactly the rows with a title, in input order, with consecutive fresh ids |
| Items.Bulk | api/server.js:215-245 | a missing or empty `rows` gives 400; otherwise `inserted` is the number of rows with a title that trims to non-empty |
| Items.BulkAppendsAdmissible | api/server.js:222-241 | a batch appends the rows with a title after the existing rows, in order, sharing one timestamp |
| Users.NormalizeEmail | api/server.js:55 | the normalised email is the trimmed input with each ASCII capital folded, position by position; it is empty exactly when the input is blank, and it is trimmed and has no ASCII capitals |
| Users.View | api/server.js:70-76 | the user object of a login answer repeats id, email, name and role and turns the stored 0/1 master flag into a boolean |
| Users.NormalizeEmailIdempotent | web/app.js:158 | normalising an already normalised email changes nothing |
| Users.Login | api/server.js:53-81 | empty normalised email or password gives 400; an unknown email or a wrong password gives 401 "Credenciais inválidas"; otherwise the signed claims and the user's public fields |
| Users.UnknownEmailAndWrongPasswordLookAlike | api/server.js:60-64 | an unknown email and a wrong password get identical answers |
| Users.NewAdmin | api/server.js:113-120 | the registered row has the next id, the given email and name, the password's hash, role `ADMIN`, master flag 0 and both timestamps `now` |
| Users.Register | api/server.js:100-126 | an empty field gives 400; a taken email gives 409; both leave the table unchanged; otherwise exactly one new `ADMIN` user, not master, under the normalised email |
| Users.RegisterKeepsAccounts | api/server.js:113-121 | registration never changes or removes an existing account |
| Users.RegisteredAdminCanLogIn | api/server.js:113-121 | with a comparison that accepts the hash, a newly registered admin can log in with the same email and password |
| Users.SeedMaster | api/server.js:21-42 | the master account is inserted as a master `ADMIN` only when its email is absent; afterwards it is present |
| Users.SeedMasterIdempotent | api/server.js:27-28 | running the seed again changes nothing |
| Users.SeededMasterCanLogIn | api/server.js:30-37 | a seeded master with a normalised email can log in and is reported as master `ADMIN` |
| Server.Startup | api/server.js:21-43 | start-up over the tables the database file already holds keeps every item and every account, adds the master `ADMIN` only when its email is absent, and keeps both tables valid |
| Server.FirstStartup | api/server.js:43 | the first start, on an empty database, leaves only the master account and no items |
| Server.RestartChangesNothing | api/server.js:27-28 | a later restart finds the master account and changes nothing |
| Server.Handle | api/server.js:53-245 | login never changes state; a refused token changes nothing and gives 401; item routes leave users alone and account routes leave items alone; only an admitted `ADMIN` registration changes users; both tables stay valid |
| Server.MissingTokenRefused | api/auth.js:19-22 | a protected request without a usable bearer token gets 401 "Token ausente" and changes nothing |
| Server.RejectedTokenRefused | api/auth.js:24-29 | a protected request whose token the verifier rejects gets 401 "Token inválido" and changes nothing |
| Server.NonAdminCannotRegister | api/server.js:100 | a verified caller without the `ADMIN` role gets 403 on registration and changes nothing |
| Server.ItemRoutesIgnoreRole | api/server.js:202 | a verified caller of any role reaches the delete handler |
| Server.AdmittedCreate | api/server.js:153 | an admitted create request is answered by the create handler alone |
| Server.AdmittedBulk | api/server.js:215 | an admitted bulk request is answered by the bulk handler alone |
| Client.AuthorizationFor | web/app.js:61 | a stored non-empty token becomes a header from which the server reads back the same token; otherwise no header |
| Client.StoredTokenReachesVerifier | web/app.js:61 | a request with a stored token is admitted exactly when the verifier accepts that token |
| Client.LoginAction | web/app.js:156-173 | an empty normalised email or password gives the alert "Preencha email e senha."; otherwise a login request with the normalised email |
| Client.SentLoginIsWellFormed | web/app.js:158-164 | a login the client sends is never answered 400 |
| Client.RegisterAction | web/app.js:360-378 | an empty trimmed name, normalised email or password gives an alert; otherwise a registration with those values and the stored token |
| Client.SentRegistrationIsWellFormed | web/app.js:362-369 | a registration the client sends is never answered 400 |
| Client.CreateAction | web/app.js:282-299 | an empty trimmed title gives the alert "Preencha o título."; otherwise a create request with the trimmed title, the chosen status and the trimmed owner |
| Client.SentCreateIsStored | web/app.js:284-299 | a create the client sends with an accepted token is answered `{ok:true}` and appends one row whose title is the trimmed title field |
| Client.BulkAction | web/app.js:328-343 | no parsed row gives the alert "Cole pelo menos 1 linha válida no lote."; otherwise one request carrying every parsed row |
| Client.PastedRowsAdmissible | web/app.js:330-342 | every parsed row passes the server's title check |
| Client.PastedRowsAllInserted | web/app.js:340-350 | with an accepted token, the server reports every parsed row as inserted |
| Client.PastedRowsStoredInOrder | web/app.js:340-350 | the rows stored are the parsed rows in paste order with the same title, status and owner, fresh consecutive ids and one timestamp |

## Left out

- `GET /health` and `GET /me` (api/server.js:48 and 84-98) are not part
  of this model. They have no logic beyond a fixed answer or a plain lookup.
- `api/db.js` is not part of this model. Its SQLite plumbing is replaced
  by the abstract tables. `initDb` creates only the `items` table, so the
  `users` queries depend on a table created elsewhere. The model assumes
  that table exists.
- The 500 answers for a failing database call are not modelled. Store
  operations cannot fail in the model.
- bcrypt hashing and comparison, and JWT signing, verification and the
  8-hour expiry, are oracles. They are foreign cryptography and a clock.
- `nowIso` is the `now` parameter.
- Items.Matches: SQLite `LIKE '%q%'` is modelled as case-sensitive
  substring search. SQLite's ASCII case folding, and `%` or `_` inside `q`
  acting as wildcards, are not modelled.
- Items.List: the table is a sequence in insertion order. The answer is in
  decreasing id order whenever ids increase along the table. `Items.Valid`
  guarantees that for every reachable state.
- `String(...)` coercion of JSON values that are not strings is not
  modelled. A JSON `null` in an update body would become the text "null".
  A row of `rows` that is not an object behaves as a row with every field
  absent.
- Users.NormalizeEmail: `toLowerCase` is modelled for ASCII letters only.
  Other scripts' case folding is left out.
- Express routing, CORS, the JSON body limit, `listen`, console logging
  and the hard-coded seed credentials are left out. The seed account is a
  parameter.
- All DOM and UI code in web/app.js is left out: alerts, rendering,
  buttons, the debounce timer, `localStorage`, `fetch`, and date
  formatting.
- The client's row save and row delete (web/app.js:305-321) are not
  modelled. They forward the edited fields or the id without a check of
  their own.
- Each handler is modelled as one atomic step. In the source every
  `await` lets other requests run in between. Examples: the bulk loop
  inserts row by row (api/server.js:225-239); registration checks the
  email and then inserts (api/server.js:110-120); update reads, writes and
  reads again (api/server.js:180-194). Interleavings are not modelled.
- Items.BulkAppendsAdmissible: the batch rows get consecutive ids and sit
  together only when no other insert runs during the loop.
- Client.PastedRowsStoredInOrder: this holds under the same condition of
  no concurrent insert.
- Users.Register: the 409 for a taken email assumes no concurrent
  registration of the same email between the check and the insert.
