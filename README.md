# MyGasolinera back end: a Dafny model of its core

MyGasolinera is a Node.js back end for a fuel-price app. This project models
and proves five parts of it:

- **The station synchroniser** (`scripts/sincronizarGasolineras.js`). It
  normalises the Spanish ministry's fuel-price feed into station records.
  It then upserts them into the `gasolineras` table inside one transaction,
  counts insertions, updates and errors, and writes an audit row to
  `logs_sincronizacion`.
  - Modules `StationFeed` (`sync.dfy`) and `StationSync` (`sync_engine.dfy`).
  - The pure normalisers are functions.
  - The upsert loop is a method, with loop invariants, of a `Synchronizer`
    class that holds the table and the `estadisticas` counters. It is proved
    against `Replay`, a specification function that folds one loop step at a
    time.
- **The spend statistics** (`routes/estadisticas.routes.js`). These are eight
  read-only endpoints, each one SQL aggregate over the caller's receipts.
  - Module `Statistics` (`stats.dfy`) models them as functions over a
    sequence of receipts, with the current date `today` as a parameter.
  - Module `MonthText` formats `DATE_FORMAT` month keys and proves that
    their text order is the calendar order.
  - Module `Dates` (`dates.dfy`) holds calendar dates, `DATE_SUB` with
    day clamping, and month indices.
- **Receipts** (`routes/facturas.routes.js`).
  - Module `Invoices` (`receipts.dfy`) has a `ReceiptTable` class for the
    `facturas` table.
  - It covers creation with validation and defaults, the owner's list
    newest first, and deletion with its 400/404/403 checks.
- **Cars** (`routes/coches.routes.js`).
  - Module `Vehicles` (`cars.dfy`) has a `CarTable` class for the `coches`
    table.
  - It covers insertion with validation, per-user make and model
    uniqueness and the oil-change defaults, the owner's list, and deletion.
- **Internationalisation** (`middleware/i18n.js`). Module `I18n`
  (`i18n.dfy`) covers:
  - choosing the request language: query parameter, then
    `Accept-Language`, then `es`, falling back to `es` when the language is
    not loaded;
  - the `req.t` loop, which walks a nested translation object along the dot
    segments of a key.

`common.dfy` holds shared pieces:
- `Option` and `Result`, whose error constructors stand for the HTTP error
  answers: `BadRequest` (400), `UserNotFound` and `RecordNotFound` (404),
  `Forbidden` (403) and `Conflict` (409);
- the `users` table as a map from e-mail to user id;
- the JavaScript string operations the core uses (`trim`, `toUpperCase`,
  `includes`, `replace` of the first match, `split`);
- `filter`-shaped sequence combinators.

Database state is a value held in a class field: a
`map` keyed by `id_gasolinera` for stations, and a `seq` in insertion order
for receipts and cars, with the next `AUTO_INCREMENT` value beside it. What
each query or statement does to it is spelled out in the methods.

The code drops a station when either coordinate parses to 0, not only at
(0, 0), and the model follows the code.

## Model

| member | source | states |
|---|---|---|
| `StationFeed.ParsePrice` | scripts/sincronizarGasolineras.js:45-51 | a missing value, one that is blank after trimming, or one that upper-cases to "N/A" gives 0 |
| `StationFeed.ParseFloatDecimal` | scripts/sincronizarGasolineras.js:50 | `parseFloat` skips leading whitespace, reads an optional '+' or '-', then digits with a dot before, among or after them (at least one digit) up to a non-digit, as that decimal number, negated for '-' |
| `StationFeed.ParsePriceDecimalComma` | scripts/sincronizarGasolineras.js:45-51 | optional leading whitespace, an optional sign, then "d,f" (d or f not empty) followed by anything that is not a digit, a second comma included, gives d.f, negated for '-': so " 1,549" is 1.549, ",5" is 0.5, and only the first comma becomes a decimal point |
| `StationFeed.ParsePriceExample` | scripts/sincronizarGasolineras.js:49-50 | "1,549" gives 1.549 |
| `StationFeed.ParseLongitudeExample` | scripts/sincronizarGasolineras.js:109 | the longitude "-3,703790" gives -3.70379 |
| `StationFeed.ParsePriceNoNumber` | scripts/sincronizarGasolineras.js:50 | text with no numeric prefix (NaN) gives 0 |
| `StationFeed.FindCode` | scripts/sincronizarGasolineras.js:56 | finds the first position, at or after a start, of five digits bounded by non-word characters or the ends, and none lies before it; `None` when there is none |
| `StationFeed.ExtractPostalCode` | scripts/sincronizarGasolineras.js:53-65 | the result is '' or five ASCII digits; '' for an empty address; otherwise the first isolated five-digit run of the address, if not then of the municipality, if not then '' |
| `StationFeed.CodeIsIsolated` | scripts/sincronizarGasolineras.js:56 | a match has no digit right before it or right after it |
| `StationFeed.NoCodeInDigitRun` | scripts/sincronizarGasolineras.js:56 | a run of digits of any length other than five contains no match |
| `StationFeed.SixDigitsNoCode` | scripts/sincronizarGasolineras.js:53-64 | six-digit runs such as '123456' in the address and '280012' in the municipality give '' |
| `StationFeed.NormalizeHours` | scripts/sincronizarGasolineras.js:67-71 | missing or empty input gives ''; otherwise the result is '24H' exactly when the trimmed text, upper-cased, contains "24H" or the trimmed text is "1", and the trimmed text in every other case |
| `StationFeed.HoursOfMarker` | scripts/sincronizarGasolineras.js:70 | '24H' normalises to itself |
| `StationFeed.HoursOfPlain` | scripts/sincronizarGasolineras.js:69-70 | text whose trimmed form neither contains the marker once upper-cased nor is "1" comes back trimmed, and that trimmed form is kept unchanged |
| `StationFeed.NormalizeHoursIdempotent` | scripts/sincronizarGasolineras.js:67-71 | normalising twice gives the same as normalising once |
| `StationFeed.ProcessItems` | scripts/sincronizarGasolineras.js:94-126 | never longer than the input; every output record has a non-empty id and nonzero latitude and longitude |
| `StationFeed.ProcessFeed` | scripts/sincronizarGasolineras.js:90-91 | an absent `ListaEESSPrecio` gives []; otherwise there are no more stations than listed items |
| `StationFeed.ProcessFeedMembers` | scripts/sincronizarGasolineras.js:90-126 | a station is processed from a feed exactly when it normalises from one of the listed items and passes the filter |
| `StationFeed.ProcessItemsAppend` | scripts/sincronizarGasolineras.js:94-126 | processing keeps the input order: processing a concatenation concatenates the results |
| `StationFeed.ProcessItemsMembers` | scripts/sincronizarGasolineras.js:94-126 | a record is in the output exactly when it normalises from some input item and passes the filter |
| `StationFeed.ZeroCoordinateExcluded` | scripts/sincronizarGasolineras.js:122-126 | an item whose latitude or longitude parses to 0 is dropped |
| `StationSync.ReplayKeys` | scripts/sincronizarGasolineras.js:135-170 | after the loop the table holds exactly its old ids plus the ids of the records whose statement did not fail |
| `StationSync.ReplayUntouched` | scripts/sincronizarGasolineras.js:135-170 | a row whose id the batch does not write keeps its data and timestamp |
| `StationSync.ReplayCounts` | scripts/sincronizarGasolineras.js:152-168 | insertions, updates and errors add up to the batch length, and the errors are the failing records |
| `StationSync.ReplayInsertions` | scripts/sincronizarGasolineras.js:137-152 | the insert counter equals the number of distinct new ids written |
| `StationSync.ResyncInsertsNothing` | scripts/sincronizarGasolineras.js:137-164 | syncing the same batch again after a run without failures inserts nothing |
| `StationSync.DuplicateInBatch` | scripts/sincronizarGasolineras.js:137-164 | two records with the same new id give one insert and one update, and the second record's data stays, stamped with `CURRENT_TIMESTAMP` |
| `StationSync.ReplayLastWrite` | scripts/sincronizarGasolineras.js:143-163 | a row holds the data of the last record written for its id, and its timestamp is `CURRENT_TIMESTAMP` exactly when the id existed before or was written earlier in the batch |
| `StationSync.ReplayWellKeyed` | scripts/sincronizarGasolineras.js:137-163 | every row stays stored under its own station id |
| `StationSync.LogStatus` | scripts/sincronizarGasolineras.js:193 | the status is 'exito' exactly when there were no errors, 'parcial' otherwise |
| `StationSync.Synchronizer.constructor` | scripts/sincronizarGasolineras.js:17-26 | all counters and the duration start at 0 |
| `StationSync.Synchronizer.SyncWithDb` | scripts/sincronizarGasolineras.js:129-180 | without a transaction fault the table and the counters become those of `Replay`, `total` the batch length and `duracion` the elapsed time; a failed begin changes nothing; a failed commit rolls back the table but keeps the counter increments |
| `StationSync.Synchronizer.RegisterLog` | scripts/sincronizarGasolineras.js:182-198 | appends one log row with the counters and the status rule; a failing insert is swallowed and leaves the log unchanged |
| `StationSync.Synchronizer.Run` | scripts/sincronizarGasolineras.js:210-228 | a failed fetch changes nothing; otherwise it processes the feed, then syncs, and writes the log only when the sync did not throw; under a transaction fault the table, log, total and duration stay, and the counters keep the increments only when the commit failed |
| `Dates.SubMonths` | routes/estadisticas.routes.js:105 | `DATE_SUB(d, INTERVAL n MONTH)` lands n months back, on the same day or on the last day of a shorter month |
| `Dates.SubMonthsBefore` | routes/estadisticas.routes.js:105 | the date moved back is never after the original, and strictly before it when n > 0 |
| `Dates.PreviousMonthWindow` | routes/estadisticas.routes.js:182-183 | a valid date lies in [first of the previous month, first of this month) exactly when its month is the previous calendar month |
| `MonthText.PadOrder` | routes/estadisticas.routes.js:225 | zero-padded numbers of the same width compare as text as they compare as numbers, and are equal exactly when the numbers are |
| `MonthText.YearMonthOrder` | routes/estadisticas.routes.js:225-233 | '%Y-%m' keys sort as text in calendar order and are equal only for the same year and month |
| `Statistics.TotalSpend` | routes/estadisticas.routes.js:12-30 | 404 exactly when the e-mail is unknown |
| `Statistics.TotalSpendSnoc` | routes/estadisticas.routes.js:23-30 | no receipts give sum 0 and count 0 (the `COALESCE`); one more receipt of the user adds its cost and 1, a receipt of another user changes nothing |
| `Statistics.CurrentMonthSpend` | routes/estadisticas.routes.js:47-66 | 404 exactly when the e-mail is unknown |
| `Statistics.CurrentMonthSpendSnoc` | routes/estadisticas.routes.js:58-66 | no receipts give sum 0 and count 0; one more receipt counts exactly when it is the user's and of today's year and month |
| `Statistics.AnnualSpend` | routes/estadisticas.routes.js:126-144 | 404 exactly when the e-mail is unknown |
| `Statistics.AnnualSpendSnoc` | routes/estadisticas.routes.js:137-144 | no receipts give sum 0 and count 0; one more receipt counts exactly when it is the user's and dated on or after twelve months back |
| `Statistics.TwelveMonthsBack` | routes/estadisticas.routes.js:143 | twelve months back is the same month of the previous year, on the same day or, from 29 February, on 28 February |
| `Statistics.GroupShape` | routes/estadisticas.routes.js:106 | the month groups are in ascending month order and none is empty |
| `Statistics.GroupKeys` | routes/estadisticas.routes.js:106 | there is one group for each month that has receipts, and no other |
| `Statistics.GroupTotals` | routes/estadisticas.routes.js:99-106 | each month's group holds the sum and count of exactly that month's receipts |
| `Statistics.GroupSums` | routes/estadisticas.routes.js:99-106 | the groups' sums add up to the total cost and their counts to the number of receipts |
| `Statistics.MonthlyAverage` | routes/estadisticas.routes.js:84-109 | 404 exactly when the e-mail is unknown |
| `Statistics.MonthlyAverageMeaning` | routes/estadisticas.routes.js:95-109 | the average is the six-month window's total divided by the number of distinct months with receipts, and 0 without receipts |
| `Statistics.SpendByMonth` | routes/estadisticas.routes.js:212-234 | 404 exactly when the e-mail is unknown |
| `Statistics.SpendByMonthOrdered` | routes/estadisticas.routes.js:225-233 | the rows' `mes` texts are strictly ascending, and every row has at least one receipt |
| `Statistics.SpendByMonthCovers` | routes/estadisticas.routes.js:225-232 | there is a row for a year and month exactly when the window holds a receipt of that month |
| `Statistics.SpendByMonthTotals` | routes/estadisticas.routes.js:225-232 | a month's row holds the sum and count of that month's receipts in the window |
| `Statistics.SpendByMonthCount` | routes/estadisticas.routes.js:228-231 | the rows' counts add up to the number of receipts in the window |
| `Statistics.Round2Close` | routes/estadisticas.routes.js:194 | `toFixed(2)` moves a value by at most 0.005 |
| `Statistics.Round2KeepsCents` | routes/estadisticas.routes.js:194 | `toFixed(2)` keeps a value that already is a whole number of hundredths |
| `Statistics.Round2Grid` | routes/estadisticas.routes.js:194 | the rounded value is a whole number of hundredths, namely `Cents(x)` |
| `Statistics.CentsNearest` | routes/estadisticas.routes.js:194 | no whole number of hundredths is closer to the value than the one `toFixed(2)` picks |
| `Statistics.CompareMonths` | routes/estadisticas.routes.js:162-195 | 404 for an unknown e-mail; previous month plus difference equals current month; the percentage is 0 when the previous month is not positive, otherwise exactly difference / previous × 100 rounded to hundredths as `toFixed(2)` rounds, so within 0.005 of it |
| `Statistics.CompareMonthsMeaning` | routes/estadisticas.routes.js:173-189 | the current month's figure equals the `mes-actual` sum, and the previous month's figure is the sum over receipts of the previous calendar month |
| `Statistics.MinCost` | routes/estadisticas.routes.js:266 | `MIN(coste)` is NULL exactly for no rows, and otherwise is a cost that occurs and is at most every cost |
| `Statistics.MaxCost` | routes/estadisticas.routes.js:267 | `MAX(coste)` is NULL exactly for no rows, and otherwise is a cost that occurs and is at least every cost |
| `Statistics.AveragePerReceipt` | routes/estadisticas.routes.js:252-270 | 404 for an unknown e-mail; minimum and maximum are both NULL or both present; the average is 0 without receipts, otherwise between minimum and maximum |
| `Statistics.AverageWithinRange` | routes/estadisticas.routes.js:265-267 | the mean of a non-empty list of costs lies between its minimum and maximum |
| `Statistics.AveragePerReceiptMeaning` | routes/estadisticas.routes.js:263-270 | the average is the user's total divided by their count; the extremes bound every cost of the user and are attained |
| `Statistics.ProjectMonthEnd` | routes/estadisticas.routes.js:288-311 | 404 for an unknown e-mail; the elapsed days are `DAY(CURDATE())`, today's day, and the month's days are `DAY(LAST_DAY(CURDATE()))`, the days in today's month, so 1 <= elapsed <= days in month |
| `Statistics.ProjectMonthEndMeaning` | routes/estadisticas.routes.js:299-311 | the projection is this month's spend × days in month / days elapsed; 0 without receipts; never below the spend when that is not negative; equal to it on the last day |
| `Invoices.NewReceiptFields` | routes/facturas.routes.js:95-97 | the inserted row keeps the request's fields, has description '' when absent or empty, and image path NULL when absent or empty |
| `Invoices.OwnedMembers` | routes/facturas.routes.js:29-31 | a row is in the user's selection exactly when it is in the table and belongs to the user |
| `Invoices.NotAfterTotal` | routes/facturas.routes.js:30 | any two receipts are comparable by (fecha, hora) |
| `Invoices.NotAfterTransitive` | routes/facturas.routes.js:30 | the (fecha, hora) order is transitive |
| `Invoices.InsertNewestFirst` | routes/facturas.routes.js:30 | inserting into a newest-first list keeps it newest first and adds exactly that element |
| `Invoices.SortNewestFirst` | routes/facturas.routes.js:30 | `ORDER BY fecha DESC, hora DESC`: the result is a permutation of the input and newest first |
| `Invoices.SortedListsAgreeOnDates` | routes/facturas.routes.js:30 | two newest-first orderings of the same rows agree on the date and time at every position, so only ties may differ |
| `Invoices.WithoutIdRemovesOne` | routes/facturas.routes.js:183-186 | with unique ids, deleting by id removes exactly that row and keeps the others in order |
| `Invoices.ReceiptTable.Create` | routes/facturas.routes.js:59-118 | 400 unless the title is truthy and cost, date and time are present (a cost of 0 counts); then 404 for an unknown e-mail; otherwise appends the new row under the next id and returns that id |
| `Invoices.ReceiptTable.List` | routes/facturas.routes.js:12-42 | 404 for an unknown e-mail; otherwise newest first, and a permutation of the views of exactly the user's rows |
| `Invoices.ReceiptTable.Delete` | routes/facturas.routes.js:135-193 | 400 without an id, 404 for an unknown user or receipt, 403 for another user's receipt, and the table unchanged in those cases; otherwise exactly that row is removed |
| `Invoices.CreatedReceiptListed` | routes/facturas.routes.js:29-31 | a created receipt shows up in its owner's list and leaves every other user's list unchanged |
| `Vehicles.NumOrNull` | routes/coches.routes.js:62 | `x \|\| null` on a number keeps a truthy number and gives NULL for a missing value or 0 |
| `Vehicles.TextOrNull` | routes/coches.routes.js:62 | `x \|\| null` on text keeps non-empty text and gives NULL otherwise |
| `Vehicles.NumOr` | routes/coches.routes.js:63-64 | `x \|\| d` keeps a truthy number and gives the default otherwise |
| `Vehicles.NewCarDefaults` | routes/coches.routes.js:60-65 | the oil-change intervals are never 0 and default to 15000 km and 12 months when missing; an initial mileage of 0 becomes NULL; the last change's mileage and date are NULL exactly when missing or falsy |
| `Vehicles.AppendKeepsDistinct` | routes/coches.routes.js:47-60 | inserting a car the user does not already have keeps (user, make, model) unique |
| `Vehicles.CarsOf` | routes/coches.routes.js:111-114 | a view is listed exactly when it is the view of one of the user's cars; the list is as long as the user's rows, and with unique ids no car is listed twice |
| `Vehicles.CarsOfAppend` | routes/coches.routes.js:111-114 | a new car joins its owner's list at the end and leaves the other users' lists unchanged |
| `Vehicles.WithoutIdRemovesOne` | routes/coches.routes.js:180-183 | with unique ids, deleting by id removes exactly that car and keeps the others in order |
| `Vehicles.SubsequenceKeepsDistinct` | routes/coches.routes.js:180-183 | removing a car keeps ids and (user, make, model) unique |
| `Vehicles.CarTable.Insert` | routes/coches.routes.js:11-78 | 400 unless make, model and fuel are truthy; then 404 for an unknown e-mail; then 409 when the user already has that make and model; otherwise appends the car under the next id and returns it; it succeeds exactly when none of these holds |
| `Vehicles.CarTable.List` | routes/coches.routes.js:97-116 | 404 for an unknown e-mail; otherwise lists each of the user's cars once and nothing else: membership, the count of the user's rows and, with unique ids, no repeats |
| `Vehicles.CarTable.Delete` | routes/coches.routes.js:132-190 | 400 without an id, 404 for an unknown user or car, 403 for another user's car, and the table unchanged in those cases; otherwise exactly that car is removed |
| `I18n.FirstTagPrefix` | middleware/i18n.js:25 | the header's primary tag is its text up to the first ',' or '-' |
| `I18n.SelectLanguage` | middleware/i18n.js:25-32 | the selected language is 'es' or a loaded, truthy table; anything other than 'es' is the requested language |
| `I18n.LanguagePriority` | middleware/i18n.js:25-30 | a truthy query parameter wins when its language is loaded and gives 'es' otherwise; without one, a loaded primary tag of the header is used; with neither, 'es' |
| `I18n.HeaderTagSelected` | middleware/i18n.js:25 | a header such as `en-US,...` selects `en` when English is loaded and no query parameter is given |
| `I18n.Child` | middleware/i18n.js:41-42 | `v[k]` finds an object's member exactly when the key is present, and finds nothing on numbers, booleans and null |
| `I18n.WalkPrefix` | middleware/i18n.js:40-46 | the descent continues from where its successful prefix ended |
| `I18n.WalkPrefixFails` | middleware/i18n.js:40-45 | once a non-empty prefix of the path fails, the whole descent fails |
| `I18n.Lookup` | middleware/i18n.js:36-48 | `t(key)` gives either the key itself or a truthy value |
| `I18n.Translate` | middleware/i18n.js:36-49 | the loop over the key's segments gives exactly `Lookup` |
| `I18n.NoTableEchoesKey` | middleware/i18n.js:38-44 | without a loaded table for the language every key comes back unchanged |
| `I18n.MissingSegmentEchoesKey` | middleware/i18n.js:41-45 | once a segment is missing or falsy, the key comes back, whatever the later segments are |
| `I18n.FoundPathGivesValue` | middleware/i18n.js:40-48 | when the whole path is present and truthy, the value reached is returned, nested objects included |
| `I18n.NestedLookup` | middleware/i18n.js:35-48 | 'section.name' finds the stored text; 'section' alone gives the whole section; a name the section lacks gives the key back |

## Left out

- Network, database connections and console output are not modelled. This
  covers the axios fetch, connect and disconnect, `mostrarEstadisticas` and
  pool acquire and release.
  - A failed fetch is `feed == None` in `Run`.
  - Per-record statement failures are a set of batch indices.
  - Transaction faults are the `Fault` parameter.
- `Date.now()` and `CURDATE()`/`NOW()` are parameters: `elapsed` and `now` for the
  synchroniser, `today` for the statistics.
- `StationSync.Step`: every UPDATE of one run is stamped with the same `now`.
  MySQL evaluates `CURRENT_TIMESTAMP` per statement, so rows updated later in
  a run may carry later stamps; the model does not distinguish them.
- `Vehicles.CarTable.Insert`, `StationSync.Synchronizer.Run`: concurrency is
  not modelled; each request and each synchronisation run is one atomic step.
  - `POST /insertCar` runs its duplicate `SELECT` and its `INSERT`
    (routes/coches.routes.js:47-64) as two statements on a pooled connection,
    with no transaction and no lock. Two overlapping requests for the same
    make and model can both pass the 409 check and both insert. The
    make-and-model uniqueness that `CarTable.Valid` keeps therefore holds
    only for requests that do not overlap.
  - Two overlapping synchronisation runs interleave their SELECT and
    INSERT/UPDATE statements, so a run's counters need not be what `Replay`
    computes from the table as that run found it.
- HTTP routing, `authenticateToken` and the 500 answer on an unexpected
  exception are not modelled. Error answers are `Result` constructors.
- Loading the translation files from disk (middleware/i18n.js:8-19) is not
  modelled. The tables are a parameter.
- Floating point is not modelled: costs, prices and coordinates are `real`.
  - Sums are exact.
  - The quotients MySQL computes are exact real quotients in the model:
    `AVG(coste)` (routes/estadisticas.routes.js:264) and the division by
    `DAY(CURDATE())` (routes/estadisticas.routes.js:304-305). MySQL rounds
    them, for DECIMAL and DOUBLE columns alike.
  - `parseFloat` reads only `[whitespace][sign](digits[.digits] | .digits)`.
    It ignores exponents and `Infinity`.
- `StationFeed.NormalizeHours`: `toUpperCase` is modelled on ASCII letters
  only; every non-ASCII case mapping is dropped. Text such as "24ẖ", which
  JavaScript upper-cases to a string containing "24H", gives '24H' in the
  code but stays as is in the model. (`ParsePrice` also upper-cases, but no
  non-ASCII character upper-cases to the letters of "N/A".)
- MySQL's case-insensitive collation is not modelled: `email = ?` and
  `marca = ? AND modelo = ?` compare text exactly.
- `Statistics.CompareMonths`: `porcentaje_cambio` is the number that
  `toFixed(2)`'s string reads back as, not the string.
- `Statistics.SpendByMonth`: requires years 0 to 9999, the range of a `DATE`
  column, so that `%Y` has four digits.
- `Statistics.MonthlyAverage`, `Statistics.SpendByMonth`: MySQL's
  `ONLY_FULL_GROUP_BY` handling of `mes_nombre` is not modelled.
- Route parameters (`:id_coche`, `:id_factura`) are `Option<nat>`. The
  string-to-number coercion of the SQL comparison is not modelled.
- The SQL-error fallbacks that retry without `imagenPath`
  (routes/facturas.routes.js:33-40, 99-105) are not modelled. Only the
  primary path is.
- Dates and times in request bodies are taken as parsed dates. Their string
  form and MySQL's handling of invalid dates are not modelled.
- `GET /coches` has no `ORDER BY`, so the model returns the user's cars in
  insertion order. The contracts claim which cars are listed and that each
  is listed once, not their order.
- `GET /facturas`: rows tied on (fecha, hora) may come in any order.
  `SortedListsAgreeOnDates` shows that any two valid orders differ only
  among ties.
- `I18n.Child` models these `v[k]` lookups:
  - object members;
  - array elements and string characters at canonical decimal indices;
  - `length`.

  It does not model:
  - inherited prototype properties (`constructor`, `toString`, ...), for the
    language as well as for the key segments. In the code `?lang=constructor`
    passes the `!translations[lang]` test (middleware/i18n.js:27), so
    `req.language` becomes a name with no translation table and `t` then
    walks the `Object` function's properties. `I18n.SelectLanguage`'s promise
    of 'es' or a loaded table holds only for the own properties modelled
    here;
  - an array-valued `lang` query parameter;
  - JavaScript strings as UTF-16 code units.
- `parsearPrecio` and `normalizarHorario` call `toString()` on their input;
  the feed's values are modelled as strings.
