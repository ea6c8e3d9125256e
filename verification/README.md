# flasker: monomer listing and kp tables

`app.py` is a small Flask service on top of the upstream polymer database at
polymerdesign.de. This project models the two lookups that form its core:

- `All_Monomers(identifier)` first checks the identifier scheme against a fixed list. It then fetches the monomer listing and returns the text of every top-level node except the last.
- `Monomer_kp_info(identifier, monomer)` also checks the identifier first. It then fetches the solution list, and reports a monomer the database does not know when the reply body is empty. For every listed solution it posts the table form and processes the reply:
  - it finds the `href` of the first anchor labelled `Reference`;
  - it rewrites every table cell with three replace-all passes (the word `Reference` becomes that link, then the unit suffixes ` J · mol-1` and `L · mol-1s-1` are removed);
  - it keeps the header texts whose `id` is not one of `main-header`, `temperature_th` and `kp_th`;
  - it pairs headers with cells through `dict(zip(...))`;
  - it converts `A`, `Ea`, `Tmin` and `Tmax` to floats where they parse.
  The result is `{"kp": {solution: record}}`.

The model has four modules:

- `Common` holds the errors and `Result`.
- `PyOps` holds Python's list slicing, `str.replace` and `dict(zip(...))`, with the edge cases the service hits: clamped negative bounds, leftmost non-overlapping replacement, truncation to the shorter list, and the last duplicate key winning.
- `Scrape` holds the processing of one parsed solution page.
- `Service` holds the two lookups.

The upstream site together with BeautifulSoup is a parameter, `Upstream`. It is a deterministic function from each request (and, for a table request, its position among the table requests) to the parsed reply. Every lookup returns an `Exchange`: its result plus the requests it sent, in order. This lets "rejected before any request" and "one POST per solution" be stated directly. Python's `float()` is a parameter `parse: string -> Option<F>`.

Two behaviours of the code are easy to misread, and the model follows the code in both:

- A record's field names are the kept header texts that `zip` pairs with a cell. Surplus headers or cells are dropped silently, and a repeated header text keeps the cell of its last occurrence.
- The link is the `href` of the first anchor labelled `Reference`, but the comprehension reads `href` from every anchor labelled `Reference` before indexing `[0]`. So a later such anchor without `href` raises `KeyError` (`ReferenceWithoutHref`), and a page with no such anchor raises `IndexError` (`NoReferenceLink`). Either error aborts the whole aggregation.

## Model

| member | source | states |
|---|---|---|
| `PyOps.Slice` | app.py:68 | A slice is a run of the list that starts at the normalised start bound and is never longer than the list. |
| `PyOps.ReplacePrefix` | app.py:117 | `PyOps.Replace` models `str.replace`. It copies through unchanged any prefix in which no occurrence of the pattern starts. |
| `PyOps.ReplaceAt` | app.py:117 | At the leftmost occurrence of the pattern, `replace` emits the replacement and resumes scanning right after that occurrence. So occurrences do not overlap, the inserted text is never rescanned, and every later occurrence is replaced too. |
| `PyOps.ReplaceAbsent` | app.py:117 | A cell in which the pattern does not occur is unchanged by `replace`. |
| `PyOps.ZipDict` | app.py:135 | The keys of `dict(zip(ks, vs))` are exactly the keys among the first `min(len(ks), len(vs))`; surplus keys or values are dropped. |
| `PyOps.ZipDictLastWins` | app.py:135 | For a repeated key, the value paired with its last occurrence within the zipped length is the one kept. |
| `Scrape.ReferenceHrefs` | app.py:112 | The comprehension succeeds iff every `Reference` anchor has an `href` (else `KeyError`); it is empty iff no anchor is labelled `Reference`; its head is the `href` of the first such anchor. |
| `Scrape.FindReference` | app.py:112 | The link is the `href` of the first `Reference` anchor. A `Reference` anchor anywhere without `href` fails with `ReferenceWithoutHref`, a page without one fails with `NoReferenceLink`, and no other error occurs. |
| `Scrape.RewriteCellPlain` | app.py:117 | `Scrape.RewriteCell` is the chain of three `replace` passes on one cell. A cell that holds none of `Reference`, ` J · mol-1` or `L · mol-1s-1` comes out of the three passes unchanged. |
| `Scrape.RewriteReferenceCell` | app.py:117 | The cell `Reference` becomes the link with both unit suffixes removed from it, because the link is inserted before the unit passes; a link with neither suffix comes out intact. |
| `Scrape.RewriteNumeral` | app.py:117 | A numeral, bare or followed by either unit suffix, is rewritten to the bare numeral. |
| `Scrape.RewriteEnergyNumeral` | app.py:117 | A numeral followed by ` J · mol-1` loses the suffix and nothing else. |
| `Scrape.RewriteRateNumeral` | app.py:117 | A numeral followed by `L · mol-1s-1` loses the suffix and nothing else. |
| `Scrape.FilterHeaders` | app.py:122-132 | The header loop, with `KeyError` on a missing `id` caught by the bare `except`, outputs exactly the texts of the kept headers. |
| `Scrape.HeaderTextsSources` | app.py:122-132 | `Scrape.HeaderTexts` is the list of kept header texts that the loop builds. Every output text is the text of a kept header, and the text of every kept header is output; excluded-id headers contribute only through a kept header with the same text. |
| `Scrape.HeaderTextsInOrder` | app.py:122-132 | The output has one entry per kept header, in document order: the kept header at position `i` lands at the index equal to the number of kept headers before it. |
| `Scrape.HeaderTextsAllKept` | app.py:122-132 | When no header carries an excluded id (including headers with no id at all), the output is every header's text, position by position. |
| `Scrape.CoerceFields` | app.py:136-140 | The coercion loop adds and removes no field, coerces each listed field that is present, and leaves every other field as it was; an absent field's `KeyError` is swallowed. |
| `Scrape.CoerceTexts` | app.py:135-140 | Applied to a text record, the loop gives every field the parsed number when its key is listed and its text parses, and keeps the text otherwise. |
| `Scrape.CoerceRecord` | app.py:135-140 | Only `A`, `Ea`, `Tmin` and `Tmax` can become numbers; one whose text does not parse keeps its text; the field names are those of the zipped text record. |
| `Scrape.TableRecord` | app.py:110-140 | A solution page yields a record iff its reference lookup succeeds, and otherwise fails with the lookup's error. |
| `Scrape.TableRecordFields` | app.py:112-140 | The record's field names are the kept header texts within the zipped length. The field of the last kept header at position `i` holds rewritten cell `i`, coerced if it is an Arrhenius field. |
| `Scrape.ExcludedHeaderIsNoField` | app.py:122-135 | A header with an excluded id names no field unless a kept header shares its text. |
| `Scrape.AlignedRecord` | app.py:122-140 | On a page whose kept headers are distinct and match its cells one to one, the record maps each header text to its rewritten cell, coerced if it is an Arrhenius field, and has no other field. |
| `Scrape.ExampleHeaderTexts` | app.py:122-132 | The six headers of an example table (Temperature, A, Ea, Tmin, Tmax, Reference), none with an id, are all kept, in order, and are pairwise distinct. |
| `Scrape.ExampleReference` | app.py:112 | An example page with one Reference anchor yields its link. |
| `Scrape.ExampleCell` | app.py:117 | Each cell of an example page, a numeral with or without a unit suffix or the cell `Reference`, is rewritten to its bare numeral or to the link. |
| `Scrape.ExampleRecord` | app.py:110-140 | The example page's record has exactly the six header texts as fields. `A`, `Ea`, `Tmin` and `Tmax` hold the bare numerals coerced by `float()`, or their text where it does not parse. `Temperature` keeps its text and `Reference` holds the link. |
| `Service.AllMonomers` | app.py:55-68 | An unknown identifier is rejected with no request sent. Otherwise exactly one `getMonomers` request is sent, and the result is the node texts without the last: a prefix of length `max(0, n-1)`. |
| `Service.CollectTables` | app.py:104-145 | One POST per solution, in order, with that solution's form; stops at the first page that yields no record. Succeeds iff every page yields one, and the table's labels are then exactly the listed solutions. |
| `Service.CollectTablesLastWins` | app.py:143-145 | In a successful collection each label holds the record of the page fetched for its last occurrence, so a later duplicate overwrites. |
| `Service.CollectTablesStopsAtFailure` | app.py:104-112 | A failed collection stopped at its last request: every earlier page yielded a record, and the error is that page's error. |
| `Service.MonomerKpInfo` | app.py:88-147 | An unknown identifier is rejected with no request sent. Otherwise the first request is the solution-list GET, and an empty body gives `MonomerNotFound` after that single request. Every later request is the POST form of the next option, in option order, so a failure stops after at most one POST per option. On success the result's only key is `kp`, its solutions are exactly the listed options, and one POST was sent per option. |
| `Service.PagesNeedReference` | app.py:110-112 | Page by page, the service's pipeline yields a record exactly when the page has a usable Reference link; otherwise it fails with the lookup's error. |
| `Service.KpInfoNeedsEveryReference` | app.py:104-112 | Once the monomer is found, the lookup succeeds iff every solution page has a usable Reference link; one page without it aborts the whole aggregation. |
| `Service.CollectStopsAtMissingReference` | app.py:104-112 | With the service's pipeline, a failed collection stopped at the first page without a usable Reference link, with that page's error. |
| `Service.KpInfoStopsAtMissingReference` | app.py:104-112 | A failed lookup after the monomer was found stopped at the first solution page without a usable link. All pages before it were fetched and had links. The error is `KeyError` or `IndexError` from the lookup. |
| `Service.KpInfoLastWins` | app.py:104-146 | In a successful lookup each solution label maps to the record of the page fetched for its last occurrence in the option list. |

## Left out

- The routes `get_time` (app.py:20), `Calculate_kp` (app.py:149), `data` (app.py:182) and `favicon` (app.py:189), the CORS set-up and the server start-up: they are outside the scraping core.
- HTTP: `requests.get` and `requests.post` are the functions of `Upstream`. The URLs and query strings are not modelled, since the `Request` datatype names the endpoint and its parameters. Connection errors and non-200 statuses are not modelled; the code does not inspect the status.
- HTML parsing: BeautifulSoup's output is an input. A reply is given as anchor (text, `href`) pairs, `<td>` texts, `<th>` (`id`, text) pairs and `<option>` texts. The monomer listing is its top-level node texts, and `len(parsed_page)` is taken to be their number, since both iterate over the same top-level nodes.
- `float()`: it is the `parse` parameter, and floats are an abstract type `F`. Which strings Python accepts, and the values it produces, are not modelled.
- The error messages of the two `ValueError`s: each is modelled by an error constructor that carries the offending identifier or monomer, not the text.
- Dict ordering: Python dicts keep insertion order, which shows in the JSON key order. Dafny maps are unordered, so only membership and values are stated.
- The `for coefficient in ['kp']` loop: it is a single iteration and is modelled as such, with `kp` as a constant.
- The upstream site's behaviour over time: a reply depends only on the request and, for table requests, on how many table requests came before it.
- `PyOps.Slice`: it states where the elements of a slice come from, not its exact length. `Service.AllMonomers` states the exact length for the one slice the service takes.
