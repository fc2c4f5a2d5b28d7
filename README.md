# Currency converter assets, country lookup and the factors script, in Dafny

This project models the two pieces of logic in a small Go repository. The rest of it is HTTP, SQL and JSON plumbing.

* **The currency conversion service** (`currencyconverter/currconverter.go`):
  * the fixed country → currency table and its exact-match lookup;
  * the conversion handler's steps before any exchange rate is fetched: decode the request, upper-case the country code, look it up, and answer 400 on failure;
  * the `assets` table and its first-write-wins insert (`ON CONFLICT (name) DO NOTHING`);
  * the upload handler's loop over the three expected form fields;
  * the reader's loop that turns query rows into a name → data-URI map.
* **The factors script** (`factors.go`): for one number, the divisor loop, the non-positive guard and the "Prime Number" test `count == 2`.

Modules, one per file:

* `Wrappers` (`wrappers.dfy`): `Option`, and `Response`, a handler's answer. `Response` is status 400 or 500 with a message, or `Ok` with a body.
* `Factors` (`factors.dfy`): the method `Factors`, its `while` loop and its invariants. Also the lemmas behind its contract, and the 64-bit loop counter of the Go code.
* `Base64` (`base64.dfy`): the encoding of section 4 of RFC 4648 (standard alphabet, `=` padding), which `base64.StdEncoding` implements. It comes with a decoder and the proof that decoding undoes encoding.
* `Currency` (`currency.dfy`): the table, `GetCurrencyForCountry`, Go's upper-casing, and the first steps of the conversion handler.
* `Assets` (`assets.dfy`): the class `AssetTable`, whose field `assets` is the table. Its methods are `SaveAsset` and the upload handler `UploadAsset`. Its specification functions are `Upsert` and `SaveFields`. The module also holds the reader `GetLatestAssets` with its specification `Collect`, and the lemmas about them.

How the outside world enters the model:

* The parsed multipart form is a parameter (`Option<map<string, FilePart>>`). `None` means the form did not parse. `Unreadable` means a part whose read failed.
* The query's result rows, in iteration order, are a parameter (`Option<seq<Row>>`). `None` means the query failed. `Unscannable` means a row that failed to scan.
* The JSON-decoded conversion request is a parameter. `None` means the body did not decode.

Stored bytes are `seq<byte>`, where `byte` is the integer newtype `0 <= x < 256`, the range of Go's `byte`.

A failed asset write is only logged (currencyconverter/currconverter.go:211-213). The handler still answers 200, and the model follows that.

## Model

| member | source | states |
|---|---|---|
| `Factors.Factors` | factors.go:10-28 | A non-positive number gives `NotPositive` and no list. Otherwise: the count equals the list length; every element is in [1, num] and divides num; every divisor in [1, num] is in the list; the list is strictly ascending, starts at 1 and ends at num; the prime flag holds iff the count is 2 iff num is prime. |
| `Factors.DivisorListStep` | factors.go:17-21 | One loop turn, with or without appending `i`, keeps "the ascending list of all divisors below the counter". |
| `Factors.CompleteDivisorList` | factors.go:15-22 | At loop exit the list is sound, complete and ascending, starts at 1, ends at num, and has length 2 exactly when num is prime. |
| `Factors.EndsAreOneAndNum` | factors.go:17-19 | A complete ascending divisor list of a positive number has first element 1 and last element num. |
| `Factors.CountTwoIffPrime` | factors.go:26-28 | For that list, length two (the script's prime test) holds iff num is prime (no divisor in 2..num-1, num ≥ 2). |
| `Factors.Inc64` | factors.go:17 | Go's `i++` on a 64-bit `int` stays in range; it adds one below the maximum and wraps to the smallest `int` at the maximum. |
| `Factors.RunLoop` | factors.go:17-19 | How the as-written loop stops within a number of turns: a normal exit is possible only for num below the largest `int`, and the `num % i` panic at i == 0 only for num ≥ 0. |
| `Factors.LoopNeverExitsAtMaxInt64` | factors.go:17 | As written, with num the largest `int` the guard `i <= num` never fails, from any counter value, however many turns are run. |
| `Factors.NegativeCounterPanics` | factors.go:17-18 | With num the largest `int`, a counter at or below zero climbs to 0 within -i turns, where `num % i` divides by zero. |
| `Factors.LoopPanicsAtMaxInt64` | factors.go:17-18 | With num the largest `int`, a counter in [1, num] climbs to num, wraps to the smallest `int`, climbs through the negatives and reaches the division by zero. |
| `Factors.ScriptPanicsAtMaxInt64` | factors.go:17-18 | Started at i = 1 with num the largest `int`, the loop panics on `num % 0` after 2^64 - 1 turns, without ever exiting normally. |
| `Factors.LoopExitsBelowMaxInt64` | factors.go:17 | As written, for num below the largest `int` the loop exits normally within num + 1 - i turns. |
| `Base64.SextetOf` | currencyconverter/currconverter.go:243 | Maps an alphabet character to its 6-bit value, and that value maps back to the same character. `=` and non-alphabet characters have no value. |
| `Base64.SextetOfAlphabet` | currencyconverter/currconverter.go:243 | Each 6-bit value is recovered from its character, so the alphabet is one-to-one. |
| `Base64.Encode` | currencyconverter/currconverter.go:243 | The encoding of n bytes has 4·⌈n/3⌉ characters (padded). |
| `Base64.DecodeEncode` | currencyconverter/currconverter.go:243 | Decoding an encoding gives back the original bytes, for every byte string. |
| `Currency.GetCurrencyForCountry` | currencyconverter/currconverter.go:100-117 | No error iff the code is a table key, and then the table's code and name are returned. Otherwise two empty strings with the error "unsupported country". |
| `Currency.SupportedCountries` | currencyconverter/currconverter.go:100-115 | Exactly US, IN, GB, EU and JP are accepted. Each gives its listed pair, e.g. US → (USD, United States Dollar), JP → (JPY, Japanese Yen). |
| `Currency.LowerCaseRefused` | currencyconverter/currconverter.go:112-117 | The match is exact: "us" passed directly fails, with two empty strings. |
| `Currency.ToUpper` | currencyconverter/currconverter.go:71 | Upper-casing keeps the length, maps a–z, U+0131 and U+017F as Go does, and leaves every other character unchanged. |
| `Currency.ToUpperIdempotent` | currencyconverter/currconverter.go:71 | Upper-casing an upper-cased string changes nothing. |
| `Currency.ToUpperKeys` | currencyconverter/currconverter.go:100-110 | Every table key is its own upper case. |
| `Currency.ConvertCurrencyHandler` | currencyconverter/currconverter.go:64-79 | An undecodable body gives 400 "Invalid request". A decoded request proceeds to the rate fetch iff its upper-cased code is in the table, with that code, the table's currency and the amount unchanged. Otherwise it gives 400 "Unsupported country code", before any rate fetch or save. |
| `Currency.HandlerIgnoresCase` | currencyconverter/currconverter.go:71-77 | A code and its upper case are handled identically. |
| `Currency.HandlerExamples` | currencyconverter/currconverter.go:71-77 | "us" and "jP" (and "uſ", since Go upper-cases "ſ" to "S") reach the rate fetch with USD and JPY; "usa" gets 400. |
| `Assets.DataUri` | currencyconverter/currconverter.go:243 | A data URI starts with `data:image/png;base64,` and is that prefix's length plus 4·⌈n/3⌉ characters long for n content bytes. |
| `Assets.DataUriDecodes` | currencyconverter/currconverter.go:243 | The text after the prefix decodes back to the stored content. |
| `Assets.Upsert` | currencyconverter/currconverter.go:143-148 | After an insert-if-absent, the names are the old ones plus the new one. Every existing entry keeps its content. An absent name gets the given content. |
| `Assets.FirstWriteWins` | currencyconverter/currconverter.go:143-148 | A second write under the same name changes nothing; the first content stays. |
| `Assets.AssetTable.SaveAsset` | currencyconverter/currconverter.go:143-148 | On a name already present the table is unchanged. On an absent name exactly that entry is added with the given content. |
| `Assets.SaveField` | currencyconverter/currconverter.go:196-214 | One turn of the field loop: a field the form holds readable is inserted if absent with its form content; a missing or unreadable field leaves the table unchanged; no other name is added and no existing entry changes. |
| `Assets.SaveFields` | currencyconverter/currconverter.go:194-216 | The loop adds exactly the walked fields that the form holds readable. It keeps every existing entry. Each newly added field holds its form content. |
| `Assets.UploadWritesOnlyFields` | currencyconverter/currconverter.go:194-216 | A name outside watermark, md_signature and logo is neither added nor changed by an upload. |
| `Assets.SkippedFieldDoesNotStopLoop` | currencyconverter/currconverter.go:196-209 | A missing or unreadable watermark is skipped, and the later logo is still saved. |
| `Assets.UploadLogoOnly` | currencyconverter/currconverter.go:194-216 | An upload whose form holds only a logo is one insert-if-absent of the logo. |
| `Assets.AssetTable.UploadAsset` | currencyconverter/currconverter.go:187-220 | An unparsable form gives 400 with no writes. Otherwise: 200 "Files uploaded successfully" whatever happens to individual fields; the new table is the field loop's result; existing entries are untouched; only the three asset names can be added. |
| `Assets.Collect` | currencyconverter/currconverter.go:235-244 | The read loop's map never holds more entries than there were rows. |
| `Assets.CollectFails` | currencyconverter/currconverter.go:236-241 | The read loop fails exactly when some row fails to scan. |
| `Assets.CollectKeys` | currencyconverter/currconverter.go:235-244 | The result has an entry for each row's name and for no other name. |
| `Assets.CollectLastWins` | currencyconverter/currconverter.go:236-244 | The entry for a name is the data URI of the last row carrying that name. |
| `Assets.GetLatestAssets` | currencyconverter/currconverter.go:222-248 | A failed query gives 500 "Error fetching assets" and a row that fails to scan gives 500 "Scan failed". Otherwise the map has exactly the rows' names, each mapped to the data URI of its last row. |
| `Assets.LatestKeysAreAssetNames` | currencyconverter/currconverter.go:223-228 | Given the query's WHERE clause, the result's keys are drawn from logo, watermark and md_signature. |
| `Assets.LatestIsOldest` | currencyconverter/currconverter.go:223-244 | With rows ordered newest first (ORDER BY created_at DESC), each name's entry comes from its oldest row. |
| `Assets.LatestOfTable` | currencyconverter/currconverter.go:223-244 | Reading a table whose asset-named rows are listed once each gives every stored asset's data URI, and nothing else. |
| `Assets.UploadTwiceKeepsFirst` | currencyconverter/currconverter.go:143-148 | Uploading logo A and then logo B into an empty table leaves exactly logo A. |
| `Assets.UploadTwiceReadsFirst` | currencyconverter/currconverter.go:143-148 | After those two uploads the read returns A's data URI, which decodes to A. |
| `Assets.ReadsOnlyLogo` | currencyconverter/currconverter.go:235-244 | Reading a table that holds only a logo gives exactly that logo's data URI. |

## Left out

- The stdin/stdout loop of the factors script: the model handles one number, with the printed lines as the fields of `Report`. Reading is I/O.
- `ConvertWithAPI`, the rest of `convertCurrencyHandler` and `SaveConversion`: a network call, JSON decoding and a `float64` multiplication. The model stops at the rate fetch, and `Ok(RateRequest)` says what the handler would pass to it.
- `InitDB`, `LoadAssets`, `GetAsset`, `main` and the router: connection setup, the file system and a Go map iterated in random order.
- Multipart parsing, `FormFile`, `ReadAll` and JSON encoding: their outcomes are parameters (the parsed form, `Unreadable` parts, scanned rows).
- The certificate service (`worldservicecert.go`) is not part of this model. It copies fields between JSON, SQL and one HTTP call.
- Assets.AssetTable.SaveAsset: a failing `db.Exec` is not modelled. The handler would log it and go on to the next field, as it does for an unreadable one.
- Assets.GetLatestAssets: the query's ORDER BY and WHERE are not computed. They appear as the premises `NewestFirst` and `SelectsAssetNames` of the lemmas.
- Currency.ToUpper: Go upper-cases every Unicode letter. The model maps only the characters whose upper case is ASCII (a–z, U+0131, U+017F) and leaves every other character unchanged. The lookup result is the same, because every table key is ASCII.
- Assets.GetLatestAssets: the handler never checks `rows.Err()`. An iteration error ends the loop early and is answered 200 with the rows read so far; `rows` is then that prefix, and `LatestOfTable`'s premise `ListsTable` assumes no such truncation.
- Assets.AssetTable.UploadAsset: each request is modelled as running alone on the table, and each `SaveAsset` as one atomic statement. Go serves each request in its own goroutine, so another request's write can land between the three saves.
- Currency.ConvertCurrencyHandler: the amount is carried as a `real` and never computed with.
- Factors.Factors: the counter is an unbounded integer, as the corrected loop. The as-written 64-bit counter is the subject of the finding below.

## Findings

| source | as written | input that shows it | evidently intended | confidence | as-written member | corrected member |
|---|---|---|---|---|---|---|
| factors.go:17 | `for i := 1; i <= num; i++` with a Go `int` (64-bit) counter | num = 9223372036854775807, the largest `int`: after i reaches num, `i++` wraps to the smallest `int`, so `i <= num` never fails; the counter climbs through the negative values (each negated divisor of num passes `num%i == 0`, so negative "factors" are appended) and at i == 0 `num % i` panics, after 2^64 - 1 turns | the loop stops after i = num, having tried every i in [1, num] | high; not executed | `Factors.ScriptPanicsAtMaxInt64` | `Factors.Factors` |
