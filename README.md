# Gift registry — Dafny model

A model of the gift registry ("Lista de regalos cafecito") and proofs of its
core properties. Guests browse a wedding gift list and claim one gift. The
claim marks that gift "Ya fue comprado" with the guest's name and the time.
An administrator adds, edits, deletes and resets gifts, and exports the list
as CSV. The repository has two variants of the same component:

- `App.jsx` keeps the list in memory. Every handler replaces the list with a
  `map`/`filter`/spread of the old one.
- `main.jsx` keeps the list in a shared `gifts` table (db.js creates it with
  an `id SERIAL` key). Each handler sends one statement to the table, then
  updates the page's cached copy of the list to match the reply. The claim is
  a guarded `UPDATE … WHERE id = … AND status = 'Aún disponible' RETURNING *`,
  so the table itself decides which of several competing guests gets the gift.

Modules, one per concern of the source:

| file | module | what it holds |
|---|---|---|
| gifts.dfy | `Gifts` | the gift record, its two statuses, claim, reset, one-field edit, the blank gift |
| messages.dfy | `Messages` | the user-facing texts the handlers set |
| catalog.dfy | `Catalog` | the pure list transforms both variants use: `map`, `filter`, `find`, the next id, the status views |
| csv.dfy | `Csv` | the text `exportToCSV` builds, and lemmas that split it back into lines and columns |
| store.dfy | `Store` | the shared table as a map from id to row with a serial counter, its statements, traces of statements from many clients, and the table as a class |
| app.dfy | `LocalApp` | the App.jsx component as a class over a `seq<Gift>` |
| client.dfy | `Client` | the main.jsx component as a class holding a cache and a reference to the shared table |

Modelling decisions:

- A price is an integer number of cents. Its text is what JavaScript prints
  for at most two decimals.
- `purchaserName || ""` is the identity on strings, so the model uses the
  name as given.
- The form can edit seven fields: store, link, item, description, quantity,
  price and image. The `Edit` datatype has one case for each, holding the
  value the input already parsed.
- The clock is a parameter:
  - `now` is the time the claim writes.
  - `ConfirmPurchase` in main.jsx reads the clock a second time for the
    cached copy, and that second parameter is `cacheNow`.
- Each store call is one request, and how it ends is the parameter
  `d: Delivery`:
  - `Replied`: the statement runs and its reply arrives.
  - `NeverReached`: the request fails before the statement runs. The reply
    is `Thrown` and the table is unchanged.
  - `ReplyLost`: the statement commits but the reply is lost. The reply is
    `Thrown` and the table has changed.

  The page takes its catch path in both failing cases.
- The claim's key is an `Option<int>`. `selectedGiftId` starts as `null`, and
  `WHERE id = NULL` matches no row.
- Concurrency between browser sessions is modelled as sequences of atomic
  statements, `Store.Run`; any interleaving is one such sequence.

Three behaviours of the code that the model keeps as written:
- A claim on an id that is not in the table is not excluded up front. It
  takes the already-taken path (main.jsx:131-135).
- After a claim that matches no row, the cached list is left as it was. It
  is not refreshed from the table (main.jsx:131-135).
- App.jsx checks and sets the status inside one `map` over its own list.
  There is no shared store in that variant (App.jsx:153-179).

## Model

| member | source | states |
|---|---|---|
| Gifts.Claimed | main.jsx:121-129 | a claimed gift is Purchased, with the claimant's name and the claim time; only the three purchase fields change; the record stays consistent |
| Gifts.Cleared | App.jsx:219-228 | a reset gift is Available, with no purchase time and an empty purchaser; only those three fields change |
| Gifts.ApplyEdit | App.jsx:209-213 | `{...gift, [field]: value}`: the edited field holds the new value, every other field (the id and the purchase fields included) is unchanged, consistency is kept |
| Gifts.BlankGift | App.jsx:192-206 | the added gift has quantity 1, price 0, status Available, no purchase time and empty texts |
| Catalog.MapSeq | App.jsx:155-169 | `map`: same length, each element is the function applied to the element at the same position |
| Catalog.Filter | App.jsx:216 | `filter`: no longer than the input, and every kept element satisfies the predicate |
| Catalog.FilterCounts | App.jsx:216 | `filter` keeps each element that satisfies the predicate exactly as often as the input holds it, and drops every other element |
| Catalog.FilterMembers | App.jsx:216 | every kept element comes from the input |
| Catalog.FilterShrinks | App.jsx:216 | when some element fails the predicate, the result is strictly shorter |
| Catalog.FilterAppend | App.jsx:216 | filtering distributes over concatenation, so the kept elements keep their relative order |
| Catalog.FilterKeepsUniqueIds | App.jsx:216 | filtering a list with unique ids leaves the ids unique |
| Catalog.ClaimAll | App.jsx:155-169 | the in-memory claim: an Available gift with the id becomes Purchased by the name at the time, with its listing unchanged; a Purchased one and every other gift are unchanged; ids and positions are kept, and so is consistency |
| Catalog.MarkPurchased | main.jsx:138-147 | the cache update after a confirmed claim: every cached gift with the id becomes Purchased by the name at the time, whatever its cached status; every other gift is unchanged |
| Catalog.UpdateAll | App.jsx:209-213 | only the gifts with the id change, and only in the edited field; ids, positions and consistency are kept |
| Catalog.ResetAll | App.jsx:219-228 | the gifts with the id become Available with no purchase data and their listing unchanged; every other gift is unchanged |
| Catalog.Remove | App.jsx:215-217 | no gift with the id remains; every other gift is kept as often as before; the list shrinks when the id was present; consistency and unique ids are kept |
| Catalog.RemoveAppend | main.jsx:250 | deleting distributes over concatenation, so the remaining gifts keep their order |
| Catalog.View | App.jsx:325-329 | the "available" view holds exactly the available gifts, each as often as the list does; the "purchased" view likewise holds the purchased ones; any other filter shows the whole list |
| Catalog.ViewAppend | main.jsx:389-393 | both views keep the catalog's order |
| Catalog.ViewPartition | App.jsx:325-329 | the available and purchased views together have exactly as many gifts as the catalog |
| Catalog.StatusPartition | App.jsx:325-329 | every gift passes exactly one of the two status filters |
| Catalog.Find | App.jsx:144 | `find`: None exactly when no gift has the id; otherwise the first gift with the id |
| Catalog.MaxId | App.jsx:194 | the largest id of a non-empty list: at least every id, and equal to one of them |
| Catalog.NextId | App.jsx:194 | the new id is above every id in the list; it is one more than the largest id, and 1 for an empty list |
| Catalog.NumberedNextId | App.jsx:194 | a list numbered 1 to n in order gets n + 1 |
| Catalog.AddBlank | App.jsx:192-207 | `addNewGift`: one blank gift is appended under a fresh id; the earlier gifts are kept as they were; consistency and unique ids are kept |
| Catalog.JsMax | App.jsx:194 | `Math.max(...xs)`: `-Infinity` exactly when no argument is a finite number; otherwise the largest finite argument, which is one of them |
| Catalog.JsIncrement | App.jsx:194 | `x + 1`: finite exactly when `x` is, and then one more |
| Catalog.JsNextId | App.jsx:194 | the source's new id: `-Infinity` exactly when no id is finite; otherwise above every id and one more than one of them |
| Catalog.JsIds | App.jsx:194 | `gifts.map(g => g.id)` as JavaScript numbers, position by position |
| Catalog.JsNextIdAgrees | App.jsx:194 | on every non-empty list, `Math.max(...ids) + 1` equals NextId |
| Catalog.JsMaxIsMaxId | App.jsx:194 | `Math.max(...ids)` of a non-empty list is its largest id |
| Catalog.JsNextIdRepeatsAfterEmpty | App.jsx:194 | on an empty list the source's id is `-Infinity`, and the next addition computes `-Infinity` again |
| Catalog.ClaimTwiceIsClaimOnce | App.jsx:157-161 | a second claim on the same id changes nothing; the first claimant keeps the gift |
| Catalog.ClaimPurchasedIsNoop | App.jsx:157-161 | claiming a gift that is already purchased leaves the list unchanged |
| Catalog.ResetThenClaim | App.jsx:219-228 | after a reset, a claim on the same id succeeds for the new claimant |
| Csv.Digit | App.jsx:235 | a digit character with the digit's value |
| Csv.NatToString | App.jsx:235 | the decimal text of a natural number: non-empty, only digits, no leading zero |
| Csv.NatToStringRoundTrip | App.jsx:235 | reading the digits back gives the number |
| Csv.IntToString | App.jsx:235-239 | `String(id)`: digits and an optional minus sign |
| Csv.IntToStringDenotes | App.jsx:235-239 | the text of a number starts with a minus exactly when the number is negative, and the digits after it read back as the number's magnitude |
| Csv.PriceText | App.jsx:240 | the price text holds only digits, a minus sign and a decimal point |
| Csv.PriceTextDenotes | App.jsx:240 | the price text reads back as the amount: whole units before the point; a point exactly when there are cents; then one or two digits without a trailing zero, giving the cents |
| Csv.Split | App.jsx:246 | JavaScript's `split` on one character, which the source does not call: the export lemmas use it to read the joined text of this line back; splitting always yields at least one part |
| Csv.SplitNoSep | App.jsx:246 | reading back (not source code): a text without the separator splits into itself |
| Csv.SplitAtSep | App.jsx:246 | reading back (not source code): splitting at the first separator peels off the text before it |
| Csv.SplitJoin | App.jsx:232-246 | splitting a join gives back the parts when no part holds the separator |
| Csv.SplitLength | App.jsx:246 | reading back (not source code): a text splits into one more part than it has separators |
| Csv.JoinCount | App.jsx:232-246 | a join holds the parts' count of a character, plus one per gap when the character is the separator |
| Csv.JoinLacks | App.jsx:232-246 | a join lacks a character that is neither the separator nor in any part |
| Csv.Join | App.jsx:245-246 | `join(sep)`; its meaning is stated by Csv.JoinStartsWith, Csv.SplitJoin, Csv.JoinCount and Csv.JoinLacks |
| Csv.JoinStartsWith | App.jsx:245-246 | a join begins with its first part, then the separator when more parts follow; one part joins to itself |
| Csv.CountAllZero | App.jsx:232-246 | the parts hold the character zero times exactly when no part holds it |
| Csv.HeaderLine | App.jsx:233 | `headers.join(',')`; Csv.HeaderColumns states that it splits back into the ten header names, Csv.HeaderLacksNewline that it holds no newline |
| Csv.Quote | App.jsx:236-238 | `` `"${text}"` ``; Csv.QuoteUnwraps and Csv.QuoteLacks state its meaning |
| Csv.QuoteUnwraps | App.jsx:236-238 | a quoted text is the text between two quote characters, and dropping the two gives the text back |
| Csv.StatusText | App.jsx:241 | the status text is "Aún disponible" exactly for Available and "Ya fue comprado" exactly for Purchased |
| Csv.PurchasedText | App.jsx:242 | the purchase time, or an empty field: the stored time when there is one; empty exactly when there is none or it is empty |
| Csv.Row | App.jsx:234-245 | one gift's line, the fields joined by commas; Csv.RowStartsWithId, Csv.RowColumns and Csv.RowLacksIff state its meaning |
| Csv.RowFields | App.jsx:234-245 | a row has one field per header, ten in all |
| Csv.Lines | App.jsx:231-246 | the export's lines: the header first, then one row per gift in order |
| Csv.Rows | App.jsx:234-245 | one row per gift, in order |
| Csv.Export | App.jsx:232-246 | `csvContent`, the lines joined by newlines; Csv.ExportStartsWithHeader, Csv.ExportLines and Csv.ExportLineCount state its meaning |
| Csv.ExportStartsWithHeader | App.jsx:232-246 | the export begins with the header line, and is only the header line for an empty list |
| Csv.QuoteLacks | App.jsx:236-238 | a quoted text holds a character other than the quote exactly when the text does |
| Csv.StatusTextLacks | App.jsx:241 | the status texts hold no comma and no newline |
| Csv.FieldsLackIff | App.jsx:234-245 | a row's fields hold no comma (or no newline) exactly when the gift's texts hold none |
| Csv.HeaderColumns | App.jsx:231-233 | the header line splits at commas into the ten header names |
| Csv.CellsLackComma | App.jsx:231 | no header name holds a comma |
| Csv.RowColumns | App.jsx:234-245 | a row splits at commas into its ten fields if and only if the gift's texts hold no comma |
| Csv.RowStartsWithId | App.jsx:234-235 | a row starts with the gift's id and a comma |
| Csv.CellsLackNewline | App.jsx:231 | no header name holds a newline |
| Csv.HeaderLacksNewline | App.jsx:231-233 | the header line holds no newline |
| Csv.LinesLackNewline | App.jsx:231-246 | no line of the export holds a newline when no gift's text does |
| Csv.ExportLines | App.jsx:231-246 | when no gift's text holds a newline, the export splits into the gift count plus one lines: the header, then row i for gift i, each starting with the gift's id |
| Csv.ExportLineCount | App.jsx:231-246 | the export has exactly the gift count plus one lines if and only if no gift's text holds a newline |
| Csv.RowLacksIff | App.jsx:234-245 | a row holds no newline exactly when the gift's texts hold none |
| Store.ClaimRows | main.jsx:121-129 | the guarded claim: when the row with the key is Available it becomes Purchased by the name at the time, with its listing unchanged; otherwise the table is unchanged; no other row changes |
| Store.ClaimReturned | main.jsx:121-131 | `RETURNING *` holds at most one row; one row exactly when the guard matched, and then it is the updated row |
| Store.ResetRows | main.jsx:265-272 | the row with the id becomes Available with no purchase data; no other row changes |
| Store.UpdateRows | main.jsx:221-225 | only the row with the id changes, and only in the edited field |
| Store.DeleteRows | main.jsx:244-247 | the row with the id is gone, and every other row is unchanged |
| Store.InsertRow | main.jsx:190-199 | a blank row is added under the serial's next value, and the serial advances |
| Store.Step | main.jsx:116-292 | one statement from any client: the serial advances by one exactly for an insert; a row appears only under an id already present or, for an insert, the serial's value; a call that never reaches the table changes nothing |
| Store.Run | main.jsx:116-292 | a sequence of statements: the serial never goes back, and every row after the run was there before or has an id the serial issued during the run, so a deleted id never comes back |
| Store.StepKeepsValid | main.jsx:116-292 | every statement keeps the table invariant: rows keyed by their id, ids below the serial, every row consistent |
| Store.RunKeepsValid | main.jsx:116-292 | every sequence of statements keeps the table invariant |
| Store.StepKeepsSpent | main.jsx:127 | once a gift is purchased, or deleted, no statement other than its reset makes it claimable again |
| Store.NoSuccessOnceSpent | main.jsx:127 | after that, no claim on it returns a row until it is reset |
| Store.AtMostOneClaim | main.jsx:127 | in any interleaving of statements from any clients, at most one claim on a gift returns a row unless the gift is reset in between |
| Store.ExactlyOneClaim | main.jsx:121-135 | of any number of competing claims on an available gift, exactly one returns a row |
| Store.ResetRestoresClaim | main.jsx:265-272 | after a reset, a claim on the gift returns its row, purchased by the new claimant at the new time |
| Store.CatalogStore.constructor | db.js:21-33 | an empty table whose serial starts at 1 |
| Store.CatalogStore.Claim | main.jsx:121-129 | one atomic claim: the call throws exactly when the reply does not arrive; a request that never reaches the table changes nothing; otherwise the table becomes ClaimRows, whether or not the reply is lost, and a reply that arrives is ClaimReturned |
| Store.CatalogStore.Insert | main.jsx:190-199 | the call throws exactly when the reply does not arrive; unless the request never reaches the table, the blank row under the old serial value is added and the serial advances, even when the reply is lost; a reply that arrives returns that row |
| Store.CatalogStore.Update | main.jsx:221-225 | the call throws exactly when the reply does not arrive; the table becomes UpdateRows of the old one, also when the reply is lost after the commit, and is unchanged only when the request never reaches it |
| Store.CatalogStore.Delete | main.jsx:244-247 | the call throws exactly when the reply does not arrive; the table becomes DeleteRows of the old one, also when the reply is lost after the commit, and is unchanged only when the request never reaches it |
| Store.CatalogStore.Reset | main.jsx:265-272 | the call throws exactly when the reply does not arrive; the table becomes ResetRows of the old one, also when the reply is lost after the commit, and is unchanged only when the request never reaches it |
| LocalApp.SeedGifts | App.jsx:16-95 | the six initial gifts, numbered 1 to 6 in order; gifts 2 and 6 are purchased and the others available |
| LocalApp.SeedIsValid | App.jsx:16-95 | the six initial gifts are consistent and have unique ids |
| LocalApp.SeedNextId | App.jsx:16-95 | the first gift added to the initial catalog gets id 7 |
| LocalApp.SeedFirstGift | App.jsx:16-29 | looking up id 1 in the initial list finds its first gift, which is available |
| LocalApp.LocalRegistry.constructor | App.jsx:16-101 | the component starts with the six initial gifts, no selection, a closed dialog and no messages |
| LocalApp.LocalRegistry.EnterName | App.jsx:485 | the dialog's name field holds what was typed |
| LocalApp.LocalRegistry.HandlePurchaseClick | App.jsx:143-151 | a gift shown as purchased sets the already-taken message and opens nothing; an available one is selected and the dialog opens |
| LocalApp.LocalRegistry.ConfirmPurchase | App.jsx:153-179 | the list becomes ClaimAll for the selected id, or is unchanged with no selection; the already-taken message is set exactly when the selected gift is purchased; the dialog closes, the name clears and the thank-you message is set in every case |
| LocalApp.LocalRegistry.AddNewGift | App.jsx:192-207 | the list becomes AddBlank of the old one, keeping unique ids; the id is the corrected NextId, 1 for an empty list, where App.jsx:194 computes `-Infinity` (see Findings) |
| LocalApp.LocalRegistry.UpdateGift | App.jsx:209-213 | the list becomes UpdateAll of the old one |
| LocalApp.LocalRegistry.DeleteGift | App.jsx:215-217 | the list becomes Remove of the old one |
| LocalApp.LocalRegistry.ResetGiftStatus | App.jsx:219-228 | the list becomes ResetAll of the old one |
| LocalApp.LocalRegistry.ExportToCsv | App.jsx:230-246 | the exported text is Export of the current list |
| LocalApp.GuestClaimsSeedGift | App.jsx:143-179 | a guest who opens the dialog for the first initial gift, types a name and confirms gets that gift under that name and sees the thank-you message |
| Client.RegistryClient.constructor | main.jsx:29-64 | a page whose cache holds the loaded gifts, attached to the shared table |
| Client.RegistryClient.EnterName | main.jsx:560 | the dialog's name field holds what was typed |
| Client.RegistryClient.HandlePurchaseClick | main.jsx:106-114 | decides on the cached list: a gift the cache shows as purchased sets the already-taken message; an available one is selected and the dialog opens |
| Client.RegistryClient.ConfirmPurchase | main.jsx:116-159 | the table takes the claim step unless the request never reaches it; when the reply does not arrive the cache is untouched, the dialog stays open and the claim-error message is set, even though a lost reply means the table already holds the purchase by the guest; when no row is returned the cache is untouched and the already-taken message is set; only when a row is returned is the cache marked purchased, with status and purchaser equal to the table's, the dialog closed and the thank-you message set |
| Client.RegistryClient.AddNewGift | main.jsx:172-210 | the table takes the insert step unless the request never reaches it; on a reply the cache gains exactly the row the table now holds under the new id; when the reply does not arrive the cache is untouched and the add-error message is set, even if the row was inserted |
| Client.RegistryClient.UpdateGift | main.jsx:212-237 | the table takes the update step unless the request never reaches it; on a reply the cached gifts with the id hold the new value; when the reply does not arrive the cache is untouched and the update-error message is set, even if the update committed |
| Client.RegistryClient.DeleteGift | main.jsx:239-258 | the table takes the delete step unless the request never reaches it; on a reply the row is gone and the cache becomes Remove of the old one; when the reply does not arrive the cache is untouched and the delete-error message is set, even if the row was deleted |
| Client.RegistryClient.ResetGiftStatus | main.jsx:260-292 | the table takes the reset step unless the request never reaches it; on a reply an existing gift can be claimed again and the cache becomes ResetAll of the old one; when the reply does not arrive the cache is untouched and the reset-error message is set, even if the reset committed |
| Client.RegistryClient.ExportToCsv | main.jsx:294-311 | the exported text is Export of the cached list |
| Client.CompetingGuests | main.jsx:121-135 | two pages that both show a gift as available race to claim it: the first gets the thank-you message; the second gets the already-taken message and its cache still shows the gift available |
| Client.ClaimAfterReset | main.jsx:260-292 | a claim on a purchased gift is refused; after the reset the same guest's claim succeeds and the table records them as the buyer |
| Client.LostReplyClaim | main.jsx:121-158 | a claim that commits but whose reply is lost shows the claim-error message; the guest's retry matches no row and shows the already-taken message, while the table records that guest as the buyer |

## Left out

- JSX rendering, the Header component, page switching, the access-code checks, and the timers: clearing messages after a delay and the delayed move to the thank-you page. These are UI and timing, not registry logic.
- The initial `SELECT … ORDER BY id` load and its error message: I/O. The client starts from a given list, the loaded rows.
- db.js, the connection setup and seeding. The table's shape is modelled, not its creation.
- The Blob, link and DOM plumbing of `exportToCSV`. Only the exported text is modelled.
- Csv.PriceText: models prices with at most two decimals, held in cents. JavaScript's floating-point arithmetic, exponent notation, and NaN from `parseFloat`/`parseInt` on bad input are not modelled.
- The table returns `NUMERIC` prices as text and `TIMESTAMP` values as Date objects. The model treats both as the values that were written.
- Client.RegistryClient.ExportToCsv: its contract equates the download with Export of the cache. Every cached row comes from the table, through the initial `SELECT` (main.jsx:37-54) or `RETURNING *` after an insert (main.jsx:202), so the text differs from Export:
  - main.jsx prints the price's `NUMERIC` text, "89.50" where Export gives "89.5".
  - A purchase time read from the table prints as `Date.toString()`, not as the stored ISO text. Only the time the page itself sets after a claim (main.jsx:143) is ISO text.
  - For a gift appended by AddNewGift, `RETURNING *` gives the keys `purchaser_name` and `image_url`. So `gift.purchaserName` and `gift.imageUrl` are undefined, and the Comprador and URL de Imagen cells (main.jsx:307-308) print `"undefined"` where Export prints `""`.
- LocalApp.LocalRegistry.AddNewGift: uses the corrected NextId, so an empty list gets id 1. App.jsx:194 gives `-Infinity` there; the as-written behaviour is kept in Catalog.JsNextId and shown under Findings.
- `RETURNING *` rows use the table's snake_case column names. Client.RegistryClient.AddNewGift appends the returned row as a gift with the model's field names.
- Client.RegistryClient.UpdateGift: `updateGift` computes the column name `dbField` but sends `sql(field)`. Whether the camelCase name reaches the table depends on the database driver, which is not part of this model. The model treats every edit as reaching the right column.
- Client.RegistryClient.ConfirmPurchase: the cached purchase time is a second clock reading (`cacheNow`). It is not proved equal to the time the table stored.
- Text fields in the CSV are wrapped in quotes without escaping. The line and column lemmas therefore require texts that hold no comma or newline, and say it is exactly when.
- `updateGift` is modelled only for the seven fields the form edits. The form never calls it on the id or on the purchase fields.
- Real concurrency between browser sessions is modelled as sequential interleavings of atomic statements. The store's own isolation is taken as given.
- Catalog.Find: LocalApp.LocalRegistry.HandlePurchaseClick and Client.RegistryClient.HandlePurchaseClick require the id to be in the list. The source dereferences the lookup's result without a check.

## Findings

| source | as written | input that shows it | evidently intended | confidence | as-written member | corrected member |
|---|---|---|---|---|---|---|
| App.jsx:194 | `id: Math.max(...gifts.map(g => g.id)) + 1` | delete every gift, then add two: `Math.max()` of no ids is `-Infinity`, so both new gifts get id `-Infinity`, and updating or deleting one also hits the other | a fresh id for every new gift; 1 for an empty list | high, not executed | Catalog.JsNextIdRepeatsAfterEmpty | Catalog.AddBlank |
