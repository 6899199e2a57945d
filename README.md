# Exchange-rate pages: a Dafny model of the rate logic

The repository is a two-page browser front end. It fetches EUR-based exchange rates from a public API and rebuilds them into a table of "how many INR equal 1 unit of X". The index page lists that table, sorted by code and filterable by a search box. The converter page converts an amount between two selected currencies and can swap the selection. This project models the logic inside `js/script.js` once the DOM is removed:

- `wrappers.dfy` (`Wrappers`): an `Option` type.
- `strings.dfy` (`Strings`): a lexicographic order on codes (proved a strict total order), ASCII lower-casing and substring search (`includes`), each with its characterisation.
- `rates.dfy` (`Rates`): the API response, the failure message, the normalised table (`Normalised`), the table invariant, and the conversion function `Convert` with its error cases. Lemmas cover the meaning of the normalised rates, the round trip, reciprocal rates under swap, and the fact that the pivot does not affect cross rates.
- `table.dfy` (`Table`): the sorted row projection (`Rows`, built on `SortedCodes`, proved the only strictly sorted listing of the codes) and the search predicate `RowMatches`.
- `forex.dfy` (`Forex`): the class `ForexState`. It holds the page's global and element state (`exchangeRates`, `currencies`, `baseCurrency`, the two select values, the table rows and their visibility). Its methods `Refresh` (the normalisation loop), `LoadNames`, `RenderTable`, `FilterTable` (the visibility loop) and `Swap` are each proved against the functions above.

Numbers are exact `real`s instead of JavaScript doubles. `Refresh` needs, for a successful response only, that the rates contain INR and that no rate is 0. Exact division needs this, but the page itself never checks it. Here is what the page does instead:
- INR missing. `inrRate` is `undefined`, so every entry of the loop becomes NaN and EUR becomes `undefined` (lines 73-84). On the index page, `toFixed` on the EUR rate then throws (line 153). The catch shows an error (lines 110-111), but the rates and the base currency have already been replaced. On the converter page nothing fails, and every code except INR is an invalid selection.
- INR quoted at 0. Nothing fails: every code gets 0 except INR, which gets 1.
- A code other than EUR quoted at 0. That code gets Infinity, silently.
- EUR quoted at 0. Its loop entry `inrRate / 0` is overwritten by the EUR override (line 84), so the table stays finite.

The model keeps these behaviours of the code as they are:
- A negative amount is not rejected. `parseFloat` accepts it and the code converts it.
- A table entry of 0 (falsy) is rejected as an invalid selection, just like a missing code.
- An empty select value makes the conversion do nothing (`NoSelection`). This case is separate from the invalid selection.

## Model

| member | source | states |
|---|---|---|
| Rates.FailureMessage | js/script.js:67-69 | the error shown for a failed response is `error.info` when it is present and non-empty, otherwise the default message; it is never empty |
| Forex.ForexState.Refresh | js/script.js:63-87 | a failed response changes neither the table nor the base currency and reports the failure message; a successful one replaces the table by `Normalised(rates)` (the loop of `inrRate / rate` over every raw entry, then the two overrides) and sets the base to INR; the table invariant is kept |
| Rates.Normalised | js/script.js:77-87 | the new key set is exactly the raw codes plus EUR and INR, so nothing from an earlier table survives; INR maps to 1, EUR to the raw INR rate, every other code c to `raw[INR] / raw[c]` |
| Rates.OverridesGiveNormalised | js/script.js:77-85 | a table filled entry by entry with `inrRate / rate`, followed by the EUR and INR overrides, is the normalised table |
| Rates.NormalisedInvariant | js/script.js:84-87 | a normalised table has no zero rate and rates its base currency INR at 1 |
| Rates.NormalisedPositive | js/script.js:78-81 | positive raw rates give only positive normalised rates |
| Rates.NormalisedMeaning | js/script.js:76-85 | when the API quotes EUR at 1, every entry is "INR per 1 unit of that code", i.e. the pivot rate divided by the code's own EUR quote; the two overrides agree with the generic formula |
| Rates.AmountOf | js/script.js:210 | the amount is 0 exactly when the input is unparsable or 0; otherwise it is the parsed number |
| Rates.Usable | js/script.js:221 | a rate lookup passes the truthiness test only for a code in the table, and then exactly when its rate is not 0 |
| Rates.Convert | js/script.js:216-228 | an empty selection does nothing; a missing or zero rate on either side is an invalid selection and computes nothing; otherwise the unit rate is fromRate / toRate and the converted amount is amount times the unit rate |
| Rates.InvalidOnlyWhenMissing | js/script.js:218-224 | on a table that keeps the invariant, a selection is invalid exactly when a selected code is missing from the table |
| Rates.ZeroAmountConvertsToZero | js/script.js:210-227 | an amount of 0, including an unparsable input treated as 0, converts to 0 |
| Rates.RoundTrip | js/script.js:227-228 | converting the result back with the pair exchanged returns exactly the original amount, at the reciprocal unit rate |
| Rates.SwappedUnitRate | js/script.js:228 | exchanging the two codes of a valid conversion keeps it valid and inverts its unit rate |
| Rates.ConvertNormalised | js/script.js:218-228 | after a refresh, when the API quotes EUR at 1, converting between two codes of the API's table gives the ratio of the API's own EUR quotes: the INR pivot does not affect the result |
| Rates.Example | js/script.js:72-87 | with EUR-based rates {INR: 90, USD: 1.1, EUR: 1} the table is {INR: 1, USD: 90/1.1, EUR: 90} and 100 EUR convert to exactly 110 USD |
| Strings.LexLess | js/script.js:138 | no code sorts before the empty string, and a proper prefix sorts before every longer code that it starts |
| Strings.LexIrreflexive | js/script.js:138 | no code sorts before itself |
| Strings.LexTransitive | js/script.js:138 | the sort order on codes is transitive |
| Strings.LexTotal | js/script.js:138 | any two distinct codes are ordered one way or the other |
| Strings.LexStrictTotalOrder | js/script.js:138 | the order used to sort the table is a strict total order |
| Strings.Lower | js/script.js:164-169 | lower-casing keeps the length of the text |
| Strings.SameUpToCaseLowers | js/script.js:164-169 | texts that differ only in letter case lower-case to the same text |
| Strings.LowerSpec | js/script.js:164-169 | lower-casing leaves no upper-case letter, maps each of A-Z to its lower-case letter and keeps every other character |
| Strings.LowerIdempotent | js/script.js:164-169 | lower-casing twice is lower-casing once |
| Strings.ContainsIffOccurs | js/script.js:171 | `includes` holds exactly when the term occurs at some position of the text |
| Strings.Contains | js/script.js:171 | `includes` never finds a term longer than the text, and every text includes the empty string and itself |
| Table.SortedCodes | js/script.js:132-138 | the codes of a set listed in strictly ascending order, each exactly once, one entry per element |
| Table.SortedCodesUnique | js/script.js:138 | a strictly sorted listing of a set of codes is unique: it equals `SortedCodes` |
| Table.Rows | js/script.js:132-138 | there is one row per entry of the rate table |
| Table.RowsSorted | js/script.js:138 | the rows are in strictly ascending order of code |
| Table.RowsListTable | js/script.js:132-137 | every row is an entry of the table with that entry's rate, and every entry of the table has a row |
| Table.DisplayName | js/script.js:136 | a row's name is the service's name for the code when that name is known and non-empty, otherwise the code itself; it is never empty for a non-empty code |
| Table.RowsNamed | js/script.js:136 | a row shows the known, non-empty name of its code, otherwise the code itself |
| Table.RowMatches | js/script.js:171 | a row can match only a term no longer than its code or its name |
| Table.RowMatchesIffOccurs | js/script.js:168-171 | a row matches exactly when the term occurs in its lower-cased code or in its lower-cased name |
| Table.EmptySearchMatchesAll | js/script.js:164-171 | an empty search term matches every row |
| Table.SearchForCodeMatches | js/script.js:164-171 | searching for a row's code in any letter case keeps that row |
| Table.SearchIgnoresCase | js/script.js:164 | two inputs of equal length that agree character by character up to letter case keep the same rows |
| Forex.ForexState.constructor | js/script.js:8-10 | the page starts with an empty table, no names, EUR as base and nothing selected, and the invariant holds |
| Forex.ForexState.LoadNames | js/script.js:115-125 | a name response replaces the stored names; a failed one leaves them unchanged |
| Forex.ForexState.RenderTable | js/script.js:128-138 | the table becomes the sorted projection of the current rates and names, with every row displayed |
| Forex.ForexState.FilterTable | js/script.js:162-176 | afterwards each row is displayed iff it matches the lower-cased search input, so an empty search displays every row; the rows themselves are unchanged |
| Forex.ForexState.CurrentConversion | js/script.js:209-228 | in a valid state, the current selection is invalid exactly when a selected code is missing from the table; a result carries the parsed amount |
| Forex.ForexState.Swap | js/script.js:245-253 | the two selections trade places and the conversion is redone; it fails or succeeds as before, and a successful one has the reciprocal unit rate |
| Forex.ForexState.SwapTwice | js/script.js:245-253 | swapping twice restores the selection and the displayed result |

## Left out

- Network I/O (`fetch`, `response.json()`, the rate API's address and the name service). Responses are parameters of `Refresh` and `LoadNames`.
- The ordering of the `async` calls and re-entrant refreshes (lines 59 and 98-107). The event loop is not modelled; a caller runs `Refresh`, `LoadNames` and `RenderTable` in the order the page does.
- All DOM work: element lookup, building HTML, showing and hiding elements, event wiring, and filling the select elements (`populateCurrencySelects`, lines 180-206). The select values are the public fields `fromSel` and `toSel`, and a client assigns them.
- Number formatting (`toFixed`), the timestamp display (`Date`, `toLocaleString`) and the `console.log` call. The unused `usdRate` is left out too.
- IEEE doubles: NaN, Infinity and rounding. Rates and amounts are exact reals, so `amount * from / to` equals `amount * (from / to)` here, though not bit for bit in JavaScript.
- Forex.ForexState.Refresh: does not model what the page does when INR is missing or a rate is 0: the NaN, `undefined` and Infinity entries, and the index page's error after the rates were already replaced. It requires a table with INR and no zero rate on success instead. This also excludes a zero EUR quote, which the page handles harmlessly because the EUR override replaces the loop's `inrRate / 0`; the model's loop divides by every raw rate before the override, as the page does, so it cannot take a zero divisor.
- Rates.Normalised: requires INR in the raw table and no zero rate, for the same reason as `Refresh`. A zero INR rate, which the page accepts silently, is excluded too, because the loop's own INR entry would divide 0 by 0 before the override. So is a zero EUR quote, which the page handles without harm (line 84 replaces the `inrRate / 0` entry), because the generic entry divides by it first.
- The shape of the API response is assumed: a successful response carries a `rates` object. Without one, reading `originalRates['INR']` throws a TypeError (line 73) before the table is reset on line 77. The catch then shows that error and the table is left as it was. The model has no such response.
- AmountOf: `parseFloat` on the amount's text is not modelled. The input is already parsed: `None` (NaN) or a number.
- LexLess: `localeCompare` is locale-sensitive collation. It is modelled as plain lexicographic order of characters.
- Lower: `toLowerCase` lower-cases all of Unicode. The model lower-cases only the ASCII letters A-Z.
- Currency names from the name service are modelled as a map from code to string. Non-string JSON values are not modelled.
