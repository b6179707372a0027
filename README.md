# GitHub classic token scraper: row logic in Dafny

This project models the part of `src/scraper.py` that decides what the
report of classic personal access tokens contains. That is the row loop of
`scrape_tokens` and the "redirected to login" test in
`check_login_and_navigate`. The browser is replaced by an observation of
each table row:

- the name element (`a > strong`): absent, or present with its text;
- the `<relative-time>` element: absent, or present with an optional
  `datetime` attribute;
- the expiry-text spans in page order, each readable (its text) or not
  (reading it raises);
- whether the name lookup raised something other than "no such element".

A page is either a timeout while waiting for rows, or the rows in page
order.

Modules:

- `Text` (text.dfy): Python's `str.strip()` (the characters for which
  `str.isspace()` holds), the substring test `pat in s`, and `str.lower()`.
- `IsoDate` (iso_date.dfy): `attr.replace('Z', '+00:00')`, the accepted
  shape of `datetime.fromisoformat`, and `strftime('%Y-%m-%d')`.
- `SessionGate` (session_gate.dfy): the test on the URL after opening the
  tokens page.
- `TokenRows` (token_rows.dfy): these functions:
  - `NameOf` gives the name of a row;
  - `ExpiryOf` gives its expiration, or an exception escaping the row;
  - `OutcomeOf` says whether the row ends the scrape, is skipped or adds a
    record;
  - `Scrape` gives the whole report.

  The lemmas about them cover order and filtering, the keep/drop rule, the
  two expiration tiers, and the failure outcomes.
- `Scraper` (scraper.dfy): `ScrapeTokens`, the loop over the rows with its
  nested scan over the spans (first match wins, `break`), proved to return
  exactly `Scrape(page)`.

How the model reads the code:

- Expirations are plain strings, as in the code. They are not tagged kinds
  of expiry.
- A row whose name lookup fails with "no such element" keeps the name
  `"N/A"`. Any other exception from the lookup, or from building the
  warning at line 131, leaves the row. The outer handler at lines 181-182
  then catches it, so the records gathered so far are returned.
- The span fallback (lines 147-164) runs inside the handler for a missing
  `<relative-time>`, which starts at line 144. A failure while reading a
  span is therefore not caught by the `except Exception` at line 168. It
  escapes the row and ends the scrape the same way. `Span.Unreadable`
  models it.
- A failure in the `<relative-time>` tier is caught at line 168 and gives
  `"Error parsing expiry"`. That tier fails when the `datetime` attribute
  is missing (`None.replace` raises) or when `fromisoformat` rejects the
  text.
- The check `token_name != "N/A"` also drops a real token whose note
  strips to the text `N/A` (`TokenRows.LiteralSentinelNameIsDropped`).
- The code has no pagination, de-duplication, check of the page title, or
  handling of "Expired on". None of them is modelled.

## Model

| member | source | states |
|---|---|---|
| TokenRows.NameOf | src/scraper.py:123-131 | no name element gives "N/A"; a present element gives its stripped text, or "Unnamed Token" when that is empty; the name is never empty |
| TokenRows.ScanSpans | src/scraper.py:147-164 | the span scan raises only if some span cannot be read; a result is "Expiration not found", "No expiration" or a text containing "Expires on"; spans that all say nothing give "Expiration not found" |
| TokenRows.ExpiryOf | src/scraper.py:137-170 | with a `<relative-time>` element the expiration is always resolved, to a real date or "Error parsing expiry"; without it, it is the span scan |
| TokenRows.OutcomeOf | src/scraper.py:122-176 | a row aborts exactly when its name lookup faults or its expiration raises; otherwise it is skipped exactly when its name is "N/A", and else it emits its name and expiration |
| TokenRows.Scrape | src/scraper.py:105-184 | a timeout gives no records; a loaded page gives at most as many records as rows before the first failing one, so never more than the rows |
| Scraper.ScrapeTokens | src/scraper.py:105-184 | the loop returns exactly `Scrape(page)`: nothing after a timeout, otherwise the records of the rows before the first row that raises; at most one record per named row |
| Scraper.ProcessRow | src/scraper.py:123-176 | one pass of the loop body gives that row's `OutcomeOf`: it aborts on a name fault or an escaping expiry exception, is skipped for the sentinel name, and otherwise emits name and expiration |
| Scraper.ResolveName | src/scraper.py:127-129 | the name of a present element is computed as `NameOf` defines it |
| Scraper.ResolveExpiry | src/scraper.py:137-170 | the expiration, `<relative-time>` first and spans only without it, equals `ExpiryOf(row)` |
| Scraper.ScanExpiryText | src/scraper.py:151-164 | the loop over spans with `break` on the first match returns `ScanSpans(spans)`, including `Raised` for an unreadable span |
| TokenRows.SpanVerdict | src/scraper.py:155-162 | a span containing "No expiration" yields that literal even if it also contains "Expires on"; otherwise a span containing "Expires on" yields its whole text; no verdict exactly when it contains neither |
| TokenRows.FirstAbort | src/scraper.py:122-184 | the position where the loop stops: no earlier outcome aborts, and the outcome there does |
| TokenRows.RecordsSelectInOrder | src/scraper.py:122-176 | the records are exactly those of the emitting outcomes, one each, at strictly increasing positions, none missed |
| TokenRows.ScrapeSelectsRowsInOrder | src/scraper.py:122-176 | when no row raises, the report is the emitting rows' records in page order: a filter of the rows, never a reordering |
| TokenRows.RecordsCount | src/scraper.py:172-176 | the number of records equals the number of outcomes minus those that add none |
| TokenRows.NamelessRowsAreDropped | src/scraper.py:122-176 | N rows of which K resolve to the name "N/A" give at most N - K records, so never more records than rows |
| TokenRows.KeepDecidedByName | src/scraper.py:172-176 | a row that does not raise is skipped exactly when its name is "N/A" and otherwise reports its name and expiration |
| TokenRows.KeepIgnoresExpiry | src/scraper.py:123-176 | two pages whose rows have the same names report the same names, whatever the rows say about expiry |
| TokenRows.NameResolution | src/scraper.py:123-131 | no element gives "N/A"; a present element gives its stripped text, or "Unnamed Token" when that is empty; every name is non-empty and has no surrounding whitespace |
| TokenRows.LiteralSentinelNameIsDropped | src/scraper.py:129-172 | a real name element whose text strips to "N/A" is skipped like a missing one |
| TokenRows.RelativeTimeWins | src/scraper.py:137-143 | a `<relative-time>` attribute that parses gives its leading `YYYY-MM-DD`, and changing the spans changes nothing |
| TokenRows.RelativeTimeFailureIsFinal | src/scraper.py:140-143 | a missing or unparsable `<relative-time>` attribute gives "Error parsing expiry", never the span fallback |
| TokenRows.SpansOnlyWithoutRelativeTime | src/scraper.py:144-151 | without a `<relative-time>` element the expiration is the span scan |
| TokenRows.ScanSkipsSilent | src/scraper.py:153-162 | spans that are readable and match nothing do not affect the scan |
| TokenRows.FirstMatchingSpanDecides | src/scraper.py:151-162 | the first span that matches decides: "No expiration" for a span containing it, otherwise the span's whole stripped text |
| TokenRows.NoMatchingSpan | src/scraper.py:152-164 | when no span matches, an empty span list included, the expiration is "Expiration not found" |
| TokenRows.UnreadableSpanRaises | src/scraper.py:144-164 | a span that cannot be read before any match makes the row raise |
| TokenRows.TimeoutYieldsNothing | src/scraper.py:112-114 | a timeout waiting for the rows gives no records |
| TokenRows.CompleteScrape | src/scraper.py:122-176 | when no row raises, every row is processed |
| TokenRows.FailureKeepsPrefix | src/scraper.py:122-184 | when row i is the first to raise, the report is what rows 0..i-1 give on their own, and it begins the records that all rows give with failures passed over |
| TokenRows.ScrapeIsPrefix | src/scraper.py:122-184 | whatever happens, the report is a prefix of the records of all rows |
| TokenRows.MiddleRowWithoutName | src/scraper.py:122-176 | of three rows that do not raise and whose middle one has no name element, the first and third are reported with their names and expirations, in that order |
| IsoDate.ReplaceZ | src/scraper.py:142 | after the replacement no `Z` is left |
| IsoDate.FormatExpiry | src/scraper.py:140-143 | a date comes out exactly when the attribute is present and parses after the replacement; it is then the attribute's first ten characters and a real calendar date |
| IsoDate.FormatUtcTimestamp | src/scraper.py:140-143 | for every valid date and time of day, the UTC timestamp `dateTtimeZ` yields that date |
| IsoDate.RejectInvalidDate | src/scraper.py:142 | an attribute whose first ten characters are not a real date is rejected, whatever follows |
| IsoDate.LeapDay | src/scraper.py:142 | for every four-digit year, 29 February of it is accepted exactly when the year is not 0 and is a leap year |
| IsoDate.IsIsoDateTime | src/scraper.py:142 | an accepted string is a date alone or a date, a separator and a time whose length is one of the clock shapes, with or without a six-character offset |
| SessionGate.RedirectedToLogin | src/scraper.py:73 | the test holds exactly when the lower-cased URL contains "login" or "auth" |
| SessionGate.RedirectIffSpelled | src/scraper.py:73 | the test holds exactly when the URL spells "login" or "auth" in any letter case at some position |
| SessionGate.RedirectIgnoresCase | src/scraper.py:73 | lower-casing the URL first does not change the outcome |
| SessionGate.RedirectSurvivesContext | src/scraper.py:73 | a URL that passes still passes with any text before and after it |
| Text.Strip | src/scraper.py:129 | the result has no whitespace at either end and is a slice of the input with only whitespace cut from both sides |
| Text.StripTrimmed | src/scraper.py:154 | stripping text that is already trimmed changes nothing |
| Text.Contains | src/scraper.py:155-159 | `pat in s` holds exactly when `pat` occurs in `s` at some position |
| Text.Lower | src/scraper.py:73 | same length, each character lower-cased |

## Left out

- `setup_driver` (src/scraper.py:43-64): installs and configures the browser driver; it is foreign-library plumbing.
- The navigation, waits and `time.sleep` of `check_login_and_navigate` (src/scraper.py:69-103): they depend on timing and browser state. Only the URL test at line 73 is modelled.
- `save_to_csv` (src/scraper.py:186-209): file output through `csv.DictWriter`.
- `main`, logging setup and directory creation (src/scraper.py:33-41, 212-247): orchestration and I/O. All logging calls inside the modelled functions are left out for the same reason.
- The `except NoSuchElementException` at src/scraper.py:165-167, which gives "N/A (parsing error)": `find_elements` returns an empty list instead of raising it, so the handler cannot run.
- Repeated reads of one element: line 73 reads `driver.current_url` twice and line 129 reads `name_element.text` twice. The model takes one observation of each, so a value that changes between the two reads is not modelled.
- The Selenium lookups: which elements a selector finds is given as the row observation, not computed from HTML.
- IsoDate.FormatExpiry: accepts only the calendar date `YYYY-MM-DD`, then one separator character and `HH[:MM[:SS[.fff|.ffffff]]]` with an optional `±HH:MM` offset. Offsets with seconds (`±HH:MM:SS[.ffffff]`) are accepted by every Python version that has `fromisoformat` and are left out here; so are the forms that newer versions add (basic format, week dates, other fraction lengths, a trailing `Z`).
- IsoDate.FormatExpiry: assumes `strftime('%Y-%m-%d')` prints the year with four digits. For years below 1000 the C library may print fewer.
- Text.Lower: lower-cases ASCII letters only. Python maps all Unicode upper-case letters, but `login` and `auth` are ASCII, so the URL test is unaffected.
- TokenRows.KeepIgnoresExpiry: stated for pages where no row raises. An unreadable span aborts the whole scrape, so in that case expiry text does affect which rows are reported.
