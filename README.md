# Flight search helpers of App.py, modelled in Dafny

`App.py` is a Streamlit page over the Amadeus flight-search API. Around its
UI and HTTP code it has a handful of deterministic helpers, and this project
models them and proves what they do:

- **`search_locations`**. It refuses keywords shorter than two characters and
  treats a failed lookup as "no matches". Otherwise it sorts the returned
  entries in place, airports first and then by name, with a stable sort
  (`locations.dfy`).
- **Select box labels and `extract_iata`**. Each match is shown as
  `"<code> — <name>"`, and `extract_iata` reads the code back out of the
  chosen label (`locations.dfy`).
- **`fmt_duration`**. It turns the `PT<h>H<m>M` part of an ISO 8601 duration
  into `"<h>h<mm>"` (`duration.dfy`).
- **Offer cards**. The offers are sorted in place by price. The stop count is
  shown as "Direto" or `"<n> escala(s)"`. The price line goes through the chain
  `.replace(",", "X").replace(".", ",").replace("X", ".")` (`offers.dfy`).
- **`google_flights_link`**. It builds a URL by plain concatenation
  (`link.dfy`).

Two support modules hold the rest:

- `pytext.dfy` models the Python built-ins the helpers rely on: `str.strip`,
  `int(text)`, `str(n)`, `str.split` and `str.replace` on one character,
  `str.startswith` and `<` on strings.
- `ordering.dfy` models `list.sort(key=...)`. The reference is a stable
  insertion sort written as a function, `Sort`. Beside it is an in-place
  array method, `StableSort`, proved to produce exactly `Sort`'s result.
  `Sort` is proved ordered, a permutation of its input, and stable.

The model follows the code in four places where it behaves otherwise than
the page's purpose suggests:

- A malformed duration does not degrade to an empty text. A malformed hours
  or minutes field makes `fmt_duration` raise `ValueError` from `int()`, and
  the model returns `Err(ValueError(field))`.
- Prices are not formatted per currency locale. The separator swap is applied
  whatever the currency.
- Location names are not ordered alphabetically by a locale. They are ordered
  by Python's code-point order on strings.
- `subType` is not a two-valued AIRPORT/CITY kind. It is any string or
  missing.

## Model

| member | source | states |
|---|---|---|
| Duration.Pad2 | App.py:92 | `format(m, "02d")` is `str(m)`, with a single '0' put in front exactly when that is one character long; so it is at least two characters long (`Pad2Value` reads it back) |
| Duration.Field | App.py:87 | `int(p) if p else 0`: an empty field reads as 0, and a field that fails raises ValueError naming exactly that field |
| Duration.FmtDuration | App.py:80-92 | The result is `""` exactly when the input (the empty one included) does not start with "PT"; any other input gives a non-empty text or a ValueError |
| Duration.FmtDurationOf | App.py:81-83 | On an input `"PT" + time` the result is that of the time part alone |
| Duration.HoursOf | App.py:85-88 | An hours field `<p>H` that `int()` reads as `h` (an empty one as 0) yields `h`; the minutes are then searched only up to the next `H` |
| Duration.MinutesOf | App.py:89-91 | A minutes field `<q>M` that `int()` reads as `m` (an empty one as 0) yields `m`; whatever follows the `M` is not read |
| Duration.MinutesAbsent | App.py:84-91 | Without an `M` in the rest, the piece searched for minutes has none and the minutes stay 0 |
| Duration.Pad2Value | App.py:92 | `format(m, "02d")` keeps the number: `int()` reads the padded text back as `m` |
| Duration.FieldOfDec | App.py:87 | An hours or minutes field written as `str(n)` is read as `n` |
| Duration.FieldOfPad2 | App.py:87 | A zero-padded field such as "02" holds no designator and is read as its number |
| Duration.FmtDurationHoursMinutes | App.py:80-92 | For all fields `p`, `q` that `int()` reads as `h`, `m` (an empty field as 0) and every trailing text, `PT<p>H<q>M…` gives `<h>h<mm>`: text after the first `M` (a seconds field) is ignored and the minutes are shown unnormalised |
| Duration.FmtDurationMinutesOnly | App.py:84-92 | `PT<q>M…` without an `H`, with `q` read as `m`, gives `0h<mm>` |
| Duration.FmtDurationHoursOnly | App.py:84-92 | `PT<p>H…` without an `M` before the next `H`, with `p` read as `h`, gives `<h>h00`, whatever follows that `H` |
| Duration.FmtDurationBadHours | App.py:85-87 | A non-empty hours field that `int()` refuses raises ValueError naming that field |
| Duration.FmtDurationBadMinutes | App.py:89-91 | Without an hours field, a non-empty minutes field that `int()` refuses raises ValueError naming that field |
| Duration.FmtDurationBadMinutesAfterHours | App.py:85-91 | After an hours field `int()` reads, a non-empty minutes field that `int()` refuses raises ValueError naming the minutes field |
| Duration.FmtDurationNoDesignator | App.py:84-92 | A time part holding neither `H` nor `M` (a seconds-only duration, say) gives "0h00" |
| Duration.FmtDurationExampleHoursMinutes | App.py:80-92 | "PT2H30M" gives "2h30" |
| Duration.FmtDurationExampleSecondsDropped | App.py:89-91 | "PT1H30M15S" gives "1h30" |
| Duration.FmtDurationExampleMinutes | App.py:84-92 | "PT45M" gives "0h45" |
| Duration.FmtDurationExampleNoCarry | App.py:89-92 | "PT90M" gives "0h90": minutes are not carried into hours |
| Duration.FmtDurationExampleHours | App.py:85-92 | "PT1H" gives "1h00" |
| Duration.FmtDurationExampleLaterMinutes | App.py:85-92 | "PT1H5H2M" gives "1h00": minutes are looked for only before the second `H` |
| Duration.FmtDurationExampleEmptyTime | App.py:83-92 | "PT" gives "0h00" |
| Duration.FmtDurationExampleSecondsOnly | App.py:84-92 | "PT30S" gives "0h00" |
| Duration.FmtDurationExampleBadMinutesAfterHours | App.py:85-91 | "PT2HxM" raises ValueError for "x" |
| Duration.FmtDurationExamplePadded | App.py:85-92 | "PT02H5M" gives "2h05" |
| Duration.FmtDurationSeparatorMinutes | App.py:89-91 | A minutes field made of an ASCII separator U+001C to U+001F and a digit, as in "PT\x1c5M", raises ValueError naming that field |
| Duration.FmtDurationExampleBadHours | App.py:87 | "PTxH" raises ValueError for "x" |
| Duration.FmtDurationExampleRejected | App.py:81-82 | "" and "P1D" give "" |
| Locations.SearchLocations | App.py:68-78 | A lookup happens exactly for keywords of two characters or more; a short keyword or a non-200 status gives no matches; otherwise the matches are the response's `data` (missing: empty), stably sorted by the key `(subType != "AIRPORT", name)` |
| Locations.LocationOrderIsTotalPreorder | App.py:77 | The order the sort key induces is total and transitive |
| Locations.LocationOrderEquivalent | App.py:77 | Two entries sort as equals exactly when both or neither are airports and their names (missing: "") are equal |
| Locations.OrderedLocations | App.py:77 | In any sequence in key order every airport precedes every other entry, and names are non-decreasing within each group |
| Locations.SortedLocations | App.py:77 | The sorted matches are a permutation of the input, airports first, names ordered within each group, entries with equal keys in input order |
| Locations.ExtractIata | App.py:142-143 | The result never holds an em dash; it is "" when the selection has no em dash (the empty one included), otherwise the stripped text before the first em dash |
| Locations.ExtractIataOfLabel | App.py:125 | Reading the code out of the label `"<code> — <name>"` gives `code` back whenever `code` is trimmed and holds no em dash |
| Locations.LabelsRoundTrip | App.py:125 | Every label built from a list of well-formed matches reads back as its match's code |
| Locations.ChoicesRoundTrip | App.py:125 | Every select box option reads back as its match's code; the placeholder `[""]` offered for no match reads back as "" |
| Offers.SortOffers | App.py:166 | Sorting the offers in place leaves the array equal to the stable sort by price of its old contents |
| Offers.SortedOffers | App.py:166 | The sorted offers are a permutation of the input, non-decreasing by price, with offers of equal price in input order |
| Offers.PriceOrderIsTotalPreorder | App.py:166 | The price comparison is total and transitive |
| Offers.PriceOrderEquivalent | App.py:166 | Two offers sort as equals exactly when their prices are equal |
| Offers.Stops | App.py:174 | The stop count is at least -1 |
| Offers.StopLabel | App.py:178 | The label is "Direto" exactly when the itinerary has one segment |
| Offers.StopLabelCount | App.py:174-178 | Otherwise the label is `str(len(segs) - 1) + " escala(s)"`, and its first word reads back with `int()` as the stop count |
| Offers.StopLabelNoSegments | App.py:174-178 | An itinerary without segments shows "-1 escala(s)" |
| Offers.SwapSeparators | App.py:177 | The chain keeps the length and rewrites each character on its own: ',' becomes '.', '.' becomes ',', 'X' becomes '.', everything else stays |
| Offers.SwapSeparatorsNoX | App.py:177 | The output never holds an 'X' |
| Offers.SwapSeparatorsInvolution | App.py:177 | Applying the chain twice gives the text back exactly when it holds no 'X' |
| Offers.SwapSeparatorsUnchanged | App.py:177 | The chain leaves a text alone exactly when it holds no ',', '.' or 'X' |
| Offers.SwapSeparatorsAppend | App.py:177 | The chain distributes over concatenation |
| Offers.SwapSeparatorsFrame | App.py:177 | Fixed markup without separators passes through the chain; only the fields inside are rewritten |
| Offers.SwapSeparatorsAmount | App.py:177 | In an amount such as "1,234.50" the thousands comma and decimal point trade places |
| Offers.PriceMarkup | App.py:177 | The price line is the price element around the rewritten currency code and the rewritten amount |
| Offers.PriceMarkupMexicanPeso | App.py:177 | The 'X' of a currency code is rewritten too: "MXN" is shown as "M.N" |
| FlightsLink.ParseFlightsLink | App.py:94-95 | Any URL the reader accepts is exactly the link built from the fields it returns |
| FlightsLink.ParseQuery | App.py:95 | Any query text the reader accepts is exactly the text built from the fields it returns |
| FlightsLink.LinkIsPrefixAndQuery | App.py:95 | The link is the fixed prefix followed by the query text |
| FlightsLink.ParseQueryText | App.py:95 | The query text reads back as its fields when they hold no '%' |
| FlightsLink.ParseGoogleFlightsLink | App.py:94-95 | The link reads back as the search it was built from when origin, destination and date hold no '%' |
| FlightsLink.SameLink | App.py:95 | The fields are not escaped: searches whose origin and destination read the same once joined share one link |
| FlightsLink.GoogleFlightsLinkAmbiguous | App.py:95 | Origin "A%20to%20B" to "C" and origin "A" to "B%20to%20C" give the same link |
| Ordering.StableSort | App.py:77 | Sorting an array in place leaves exactly the reference stable sort of its old contents |
| Ordering.Sort | App.py:77 | The reference sort returns a permutation of its input (`SortIsStableSort` states the rest) |
| Ordering.InsertInto | App.py:77 | One insertion step moves `a[i]` into the sorted prefix `a[..i]` exactly as the reference insertion does, and leaves the rest of the array alone |
| Ordering.SortIsStableSort | App.py:166 | The reference sort's output is ordered, a permutation of its input, and keeps every group of equal keys in input order |
| Ordering.SortSorted | App.py:77 | The reference sort's output is ordered |
| Ordering.SortStable | App.py:77 | The reference sort keeps each group of equal keys in input order |
| PyText.Strip | App.py:143 | `strip()` gives a text that neither starts nor ends with whitespace, and leaves such a text as it is |
| PyText.StripIsStripped | App.py:143 | `strip()` gives the infix of the text that starts at its first non-whitespace character, with nothing but whitespace before and after it |
| PyText.StripKeeps | App.py:143 | `strip()` keeps every non-whitespace character |
| PyText.Dec | App.py:92 | `str(n)` is non-empty, ends in a digit and holds only digits and '-'; it starts with '-' exactly for negative n, and its numeral starts with '0' only for 0 (`PyIntOfDec` reads it back) |
| PyText.PyIntOfDec | App.py:87 | `int(str(n)) == n` for every integer |
| PyText.PyIntRejectsStrayCharacter | App.py:91 | `int()` refuses a text holding a character that is no digit, sign or underscore and not whitespace that `int()` skips |
| PyText.PyIntRefusesSeparator | App.py:91 | The separators U+001C to U+001F are whitespace to `strip()`, but `int()` refuses a separator followed by a digit |
| PyText.Split | App.py:86 | `split(sep)` gives at least one piece, exactly one when `sep` does not occur, and no piece holds `sep` |
| PyText.JoinSplit | App.py:86 | Joining the pieces of a split with the separator gives the text back |
| PyText.SplitJoin | App.py:86 | Splitting a join of separator-free pieces gives the pieces back |
| PyText.SplitAt | App.py:143 | The first piece of `a + sep + b` is `a` when `a` holds no `sep` |
| PyText.Replace | App.py:177 | `replace(from, to)` keeps the length and turns every `from` into `to`, leaving other characters alone |
| PyText.ReplaceAppend | App.py:177 | `replace` distributes over concatenation |
| PyText.StartsWithAppend | App.py:81 | A text starts with a prefix exactly when it is that prefix followed by the rest |
| PyText.StrLessTransitive | App.py:77 | String `<` is transitive |
| PyText.StrLessTotal | App.py:77 | Of two different strings one is smaller |
| PyText.StrLessIrreflexive | App.py:77 | No string is smaller than itself |

## Left out

- The Streamlit page, CSS, form widgets and every `st.*` call are UI. The select box is modelled only as the list of options it is given.
- HTTP is network I/O and is not modelled. That covers the token exchange, the location and offer requests, status checks other than the one `search_locations` makes, JSON decoding and timeouts. `search_locations` takes the response's status and `data` as a parameter, and `search_offers` is not part of this model.
- `st.cache_data` memoisation is not modelled: it is framework caching keyed on the clock.
- Secrets, environment loading and the stop at startup are configuration I/O.
- `float(grandTotal)` is floating point. The price key is an abstract integer `price`.
- The `{:,.2f}` formatting of the total is floating point. The separator swap works on the already formatted text.
- The default date and `strftime` depend on the clock and a library.
- The legs line (App.py:173, 179) and the "•" duration suffix of the muted line only join texts for display.
- JSON `null` values are not modelled; a missing key is. For `name` or `subType`, a `null` name can make Python's sort raise `TypeError` when it is compared with a named entry of the same group. A `null` duration reaches `fmt_duration` as `None`, which `not iso` turns into "" (App.py:81, 171). A `null` iataCode is shown as "None — …" and read back as "None" (App.py:125, 143).
- Python's `list.sort` is TimSort; the model sorts by insertion. A stable sort's output is determined by the order and the input, so the results agree.
- `int()` also accepts non-ASCII decimal digits; the model accepts ASCII digits only.
- PyText.PyIntOfDec: holds for every integer, while CPython by default refuses `int()` and `str()` conversions of numerals longer than 4300 digits; the model has no such limit.
- Python strings can hold lone surrogate code points (from the JSON escape "\ud800", say); Dafny strings cannot, so such texts are not modelled.
- GoogleFlightsLink: carries no contract of its own; it is characterised by the reader `ParseFlightsLink` and the round trip `ParseGoogleFlightsLink`, which holds only for fields without '%'.
- PyText.PyInt, Duration.HoursAndRest, Duration.Minutes, Duration.FormatTime: `int(text)` (App.py:87, 91) and the steps of App.py:83-92 carry no contract of their own; `PyIntOfDec`, `PyIntRejectsStrayCharacter` and the `FmtDuration…` lemmas state what they promise.
- Locations.IsAirport, Locations.NameKey, Locations.KeyLess, Locations.DataOf: the sort key `(subType != "AIRPORT", name)` with its tuple `<` (App.py:77) and `.get("data", [])` (App.py:76) carry no contract of their own; `LocationOrderIsTotalPreorder`, `LocationOrderEquivalent`, `SortedLocations` and `SearchLocations` state what they promise.
- Locations.LocationOrder, Offers.PriceOrder, PyText.StartsWith, PyText.StrLess, PyText.IsSpace: the comparisons made by `data.sort(key=...)` (App.py:77) and `offers.sort(key=...)` (App.py:166), `str.startswith` (App.py:81), `<` on the name key and `str.isspace` carry no contract of their own; `LocationOrderIsTotalPreorder`, `LocationOrderEquivalent`, `PriceOrderIsTotalPreorder`, `PriceOrderEquivalent`, `StartsWithAppend`, `StrLessIrreflexive`, `StrLessTransitive`, `StrLessTotal` and `StripIsStripped` state what they promise.
- Locations.Label, Locations.Labels, Locations.Choices: no contract of their own; `LabelsRoundTrip` and `ChoicesRoundTrip` state what they promise.
