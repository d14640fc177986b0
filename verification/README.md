# Riyadh apartment listings: scraper and cleaning model

A Dafny model of the two data pipelines of a scraper for apartment listings on a
real-estate catalog site, and proofs about them.

- **Listing extraction and crawl control** (`playground.py`):
  - `Scraper.parse_soup` turns the listing cards of one rendered page into records. It applies:
    - the title / price / specs presence gate;
    - price cutting at the first `/`;
    - the area pattern `(\d+(\.\d+)?)(?= م²)`;
    - icon dispatch for beds, living rooms and bathrooms;
    - the description default.
  - `scrape_page` returns no records when loading or parsing the page raises inside its `try` block.
  - There are two pagination strategies. `scrape_until_no_more_pages` stops at the first page with no records. `scrape_specified_number_of_pages` fetches pages 1..n.
  - `save_data_to_json` flattens the per-page results into one output line per record.
- **Cleaning** (`cleaning.py`):
  - the per-line reformatting of `format_data`:
    - the second Arabic-comma segment of the title;
    - removal of `" م² |"` from the area;
    - the trimmed description;
    - `""` for missing keys;
    - skipping of undecodable lines;
  - the validity predicate shared by `count_valid_entries` and `filter_data`: every value non-empty and the title containing `حي`;
  - the newline pass over descriptions;
  - the filter;
  - the way the cleaning script chains them.

## Modules

- `Wrappers` (`wrappers.dfy`):
  - `Option` and `Result`;
  - `FilterMap`, the shape of a loop that appends or skips;
  - `TryFilterMap`, the same when a step may also raise.
- `Text` (`text.dfy`): the Python string operations used, over `seq<char>`:
  - `str.strip()`, with Python's `isspace` character set;
  - `str.split(sep)` for a one-character separator;
  - `str.replace(pat, "")`;
  - the substring test `pat in s`.
- `Listing` (`listing.dfy`): `parse_soup`.
  - The markup is abstracted as `Card(content, description)`, `Content(title, price, specs)` and `Spec(text, iconAlt)`.
  - Each of these carries the already-stripped text of the element a selector would find, or `None` when the element is missing.
- `Crawl` (`crawl.dfy`): page fetching, pagination and flattening.
  - The browser is a page oracle `Site = nat -> Fetch`. For each page number it yields `Rendered(cards)` or `Failed`, where `Failed` means an exception inside `scrape_page`'s `try` block: the page load, the parse into a soup, or the wait.
  - The unbounded scan takes a `fuel` bound so that it terminates.
- `Cleaning` (`cleaning.dfy`):
  - A JSON object is a `map<Key, string>`.
  - `json.loads` is a `decode` oracle. It returns `Malformed` for a `JSONDecodeError`, `Object(entry)`, or `NonObject` for any other JSON value.
  - Python exceptions that escape are `Failure(KeyError(Title))` and `Failure(AttributeError)`.

## Model

| member | source | states |
|---|---|---|
| Listing.MatchAt | playground.py:76 | The pattern tried at one position gives a match end exactly when digits, optionally a point and more digits, are followed by " م²"; when it gives none, no match starts there |
| Listing.MatchDetermined | playground.py:76 | Any match starting at a position has its end forced by the maximal digit runs, so at most one match starts at each position |
| Listing.SearchFrom | playground.py:76 | `re.search` finds the leftmost match: no match starts before the one it returns, and it returns none only when no match starts anywhere from the search position |
| Listing.AreaOf | playground.py:76-78 | The area text exists exactly when the pattern matches somewhere in the spec text; it is then the text of the leftmost match, a numeral (digits, optionally `.` and digits) without the unit |
| Listing.AreaOfDigitsWithUnit | playground.py:76-78 | A run of digits followed by " م²" gives exactly those digits as the area |
| Listing.NoUnitNoArea | playground.py:76-78 | A text in which " م²" never occurs gives no area, whatever numbers it holds |
| Listing.SpecAssignment | playground.py:75-89 | An area match sets the area to the text of the leftmost match and the icon is not consulted; otherwise Bed, Couch and Bath set beds, living rooms and bathrooms to the spec's text, and any other alt or a missing icon assigns nothing |
| Listing.UnassignedFieldKept | playground.py:72-89 | A field that no spec element assigns keeps its starting value (`""`) |
| Listing.LastAssignmentWins | playground.py:75-89 | A field holds the value of the last spec element that assigns it |
| Listing.AreaIsNumeralOrEmpty | playground.py:72-78 | After the spec loop the area is `""` or a numeral |
| Listing.ExtractPrice | playground.py:70 | The price is the text before the first `/`, stripped: it lies inside that head with only whitespace around it, has no `/` and no surrounding whitespace; when the stripped text has no `/` it is that stripped text unchanged |
| Listing.ExtractPriceExamples | playground.py:70 | "3,500 SAR/month" gives "3,500 SAR", and a price without `/` is kept as it is |
| Listing.ExtractPriceIdempotent | playground.py:70 | Extracting the price from an extracted price gives it back |
| Listing.ParseCard | playground.py:60-68 | A card yields a record exactly when it has a content block with a title, a price and a specs container |
| Listing.ParsedRecord | playground.py:69-101 | A kept card's record carries the title as found, the price cut from the card's price text, the beds, living rooms, bathrooms and area that the spec loop leaves (the area `""` or a numeral), and the description or `""` when the description element is missing |
| Listing.ParseSoup | playground.py:56-59 | A page yields at most one record per card |
| Listing.NothingDroppedIffAllComplete | playground.py:63-68 | The page yields as many records as cards exactly when every card passes the gate |
| Listing.RecordsComeFromCards | playground.py:59-101 | Every record of a page is the record of one of its cards |
| Listing.ParseSoupConcat | playground.py:56-105 | Cards are handled one by one in document order: parsing two runs of cards is parsing each and concatenating |
| Listing.IncompleteCardSkipped | playground.py:63-103 | A card that fails the gate is dropped and the cards before and after it still yield their records |
| Listing.CompleteCardKept | playground.py:68-101 | A card that passes the gate contributes its record between the records of the cards before it and after it |
| Crawl.ScrapePage | playground.py:33-52 | A failed load yields no records; a rendered page yields `parse_soup` of its cards, so at most one record per card |
| Crawl.ScanFrom | playground.py:114-123 | The scan collects at most as many pages as its fuel |
| Crawl.ScanCollects | playground.py:117-122 | Every collected page is the loader's result for its page number, and it is non-empty |
| Crawl.ScanStops | playground.py:118-120 | A scan that ends before its fuel does ends on a page whose result is empty |
| Crawl.ScanStopsAtFirstEmpty | playground.py:117-122 | A scan that meets its first empty page m pages in collects exactly m pages |
| Crawl.ScanIsPages | playground.py:114-123 | A scan from page 1 that collected m pages collected exactly pages 1..m |
| Crawl.ScanMatchesPages | playground.py:114-123 | When page k is the first empty one and the fuel reaches it, the scan collects exactly pages 1..k-1 |
| Crawl.ScrapeUntilNoMorePages | playground.py:114-123 | The unbounded strategy returns at most `fuel` pages |
| Crawl.CollectedPage | playground.py:117-122 | The p-th page returned by the unbounded strategy is page p's records, and it is not empty |
| Crawl.StoppedOnEmptyPage | playground.py:118-120 | When the unbounded strategy stops before the fuel runs out, the next page number yields no records |
| Crawl.ScrapeSpecifiedNumberOfPages | playground.py:125-129 | The fixed-count strategy returns exactly n results (none for n <= 0), result i being page i+1's records whatever they are |
| Crawl.UntilMatchesFixed | playground.py:114-129 | When page k is the first page with no records, the unbounded strategy returns the same pages as the fixed-count strategy asked for k-1 pages |
| Crawl.FetchErrorEndsScan | playground.py:43-45 | A failed load at page k ends the unbounded strategy there, exactly as an empty page does |
| Crawl.MoreFuelSameResult | playground.py:117-120 | Once the scan has stopped on an empty page, a larger fuel bound changes nothing |
| Crawl.FlattenConcat | playground.py:109-112 | Flattening distributes over concatenation of page lists |
| Crawl.FlattenInPageOrder | playground.py:109-112 | Page i's records come after the records of all earlier pages and before those of all later pages |
| Crawl.FailedPageIsolated | playground.py:125-129 | In a fixed-count run, a failed page contributes nothing and the other pages still contribute their records in page order |
| Crawl.SecondOfThreeFails | playground.py:125-129 | In a three-page run whose page 2 fails, the output is page 1's records followed by page 3's |
| Crawl.SaveDataToJson | playground.py:107-112 | The two nested loops write exactly the flattening of the pages: every record once, pages in order, each page's records in order |
| Cleaning.FormatTitleSpec | cleaning.py:22-24 | The new title is trimmed and contains no Arabic comma; with a comma it is the trimmed second comma-separated segment of the title, otherwise the whole trimmed title |
| Cleaning.FormatTitleIdempotent | cleaning.py:22-24 | Reformatting a reformatted title changes nothing |
| Cleaning.FormatEntry | cleaning.py:21-41 | The new entry has exactly the seven keys; the title, area and description follow their rules, price and room counts are copied, and a missing key reads as `""` |
| Cleaning.FormatData | cleaning.py:14-43 | Formatting raises exactly when some line decodes to a non-object; otherwise it keeps one reformatted entry per decoded object, in line order, skipping lines that do not decode |
| Cleaning.FormatDataShape | cleaning.py:33-43 | Every written entry has the reformatted shape, and there are at most as many as lines |
| Cleaning.FormatDataAllObjects | cleaning.py:14-43 | When every line decodes to an object, entry i is the reformatting of line i and there is one per line |
| Cleaning.FormatDataConcat | cleaning.py:14-43 | Lines are handled one by one: formatting a concatenation of lines is formatting each part, the first failure winning |
| Cleaning.FormatDataSkipsMalformed | cleaning.py:15-19 | A line that does not decode leaves no trace and does not stop processing of later lines |
| Cleaning.StripEntryNewlines | cleaning.py:71-73 | The newline pass keeps the keys and every other value, and leaves the description with its other characters in order and no line feed |
| Cleaning.StripEntryNewlinesIdempotent | cleaning.py:71-73 | Running the newline pass twice is running it once |
| Cleaning.CheckEntry | cleaning.py:78 | The condition raises `KeyError('title')` exactly when every value is non-empty and there is no title; otherwise it holds exactly for valid entries |
| Cleaning.Filter | cleaning.py:76-79 | The filter raises exactly when some entry's title lookup does; otherwise it keeps the valid entries in their order |
| Cleaning.FilterKeepsOnlyValid | cleaning.py:76-79 | Every kept entry is valid and comes from the input |
| Cleaning.FilterKeepsEveryValid | cleaning.py:76-79 | Every valid entry of the input is kept |
| Cleaning.FilterDropsNothingIffAllValid | cleaning.py:76-79 | Nothing is dropped exactly when every entry is valid |
| Cleaning.FilterIdempotent | cleaning.py:76-79 | Filtering twice is filtering once |
| Cleaning.Count | cleaning.py:49-56 | Counting raises exactly when the filter condition raises on some entry; the count is at most the number of entries |
| Cleaning.CountMatchesFilter | cleaning.py:53-56 | Counting and filtering raise on the same lists, and the count is the number of entries the filter keeps |
| Cleaning.FilterData | cleaning.py:61-79 | `filter_data` raises exactly when the condition raises on some entry after the newline pass; otherwise it writes exactly the entries that are valid after the newline pass, in input order and once each, each with no line feed in its description |
| Cleaning.FilterDataIdempotent | cleaning.py:70-79 | Running `filter_data` on its own output changes nothing |
| Cleaning.NewlinesKeepVerdict | cleaning.py:71-78 | On a reformatted entry the condition never raises, and the newline pass never changes whether the entry is valid |
| Cleaning.CountAgreesWithFilterData | cleaning.py:100-110 | On reformatted entries the printed count equals the number of entries `filter_data` writes, although the count is taken before the newline pass |
| Cleaning.PipelineCountsWhatItWrites | cleaning.py:96-110 | Whenever `format_data` succeeds, counting and filtering its output both succeed and agree |
| Cleaning.ToEntry | playground.py:93-101 | The scraper's record becomes a JSON object with exactly the seven keys, each holding the record's field of the same name |
| Cleaning.ScrapedFieldsSurviveFormatting | cleaning.py:21-41 | Reformatting a scraped record leaves its price, room counts and area unchanged (a numeral area holds no space, so the suffix never occurs in it); the title becomes the reformatted scraped title and the description the stripped scraped description |
| Text.Strip | cleaning.py:30 | `str.strip()` gives a result with no whitespace at either end that sits inside the input with only whitespace around it |
| Text.StripUnique | cleaning.py:30 | A trimmed string lying inside the input with only whitespace around it is the result of `strip()` |
| Text.StripIdempotent | cleaning.py:24 | Stripping twice is stripping once |
| Text.StripKeepsNonSpace | playground.py:70 | A non-whitespace character occurs in the stripped string exactly when it occurs in the input |
| Text.IndexOf | cleaning.py:23 | The first position of the character, or the length when it is absent |
| Text.Split | cleaning.py:23 | `str.split(sep)` gives at least one part, no part contains the separator, and one part exactly when the separator is absent |
| Text.JoinSplit | cleaning.py:23 | Joining the parts with the separator gives back the string |
| Text.SplitJoin | cleaning.py:23 | Splitting the join of separator-free parts gives back the parts |
| Text.SecondSegmentIgnoresPadding | cleaning.py:22-24 | The trimmed second segment is the same whether or not the title is stripped before splitting |
| Text.RemoveAll | cleaning.py:27 | `str.replace(pat, "")` never lengthens the string, returns it unchanged when the pattern does not occur, and shortens it by at least the pattern's length when it does |
| Text.RemoveCharLeavesNone | cleaning.py:73 | Removing a character leaves none of it behind |
| Text.RemoveCharIsWithout | cleaning.py:73 | Removing a character deletes exactly its occurrences and keeps every other character in order |

## Left out

- Selenium sessions, Chrome options, driver set-up and teardown (playground.py:19-47) are foreign code. The browser is the `Site` oracle, and `Failed` stands only for an exception inside the `try` block of `scrape_page` (playground.py:39-42).
- A failure creating the driver (playground.py:34, before the `try`) or quitting it (playground.py:47, in the `finally`) escapes `scrape_page` and aborts the whole run, in the scan loop (playground.py:118) or in `starmap` (playground.py:128). This is not modelled: a `Site` always yields `Rendered` or `Failed`.
- The diagnostic prints (playground.py:44, 103; cleaning.py:18, 85) are console output and are not modelled. The count printed at cleaning.py:107 is modelled as the value of `Cleaning.Count`.
- The random jitter and the sleeps (playground.py:35, 41-42, 49-50) are timing only and are not modelled.
- The `multiprocessing.Pool` (playground.py:127-128) is modelled only by its order-preserving `starmap` result. Parallelism and the worker bound are left out.
- BeautifulSoup selection and `get_text(strip=True)` are not modelled. A card carries the already-extracted texts.
- `img_tag['alt']` raising `KeyError` when the image has no alt attribute is library behaviour. An icon without an alt is modelled as no icon.
- JSON and CSV serialisation, and file open, write and remove, are I/O and not modelled. Decoding a line is the `decode` oracle, and `json.dump` of a record is `Cleaning.ToEntry`.
- `analyze.py` and `convert_to_csv.py` (statistics with floats, CSV export) are not part of this model.
- The interactive prompts and the URL table of both `main` functions are not modelled.
- `\d` in the area pattern covers ASCII, Arabic-Indic and Extended Arabic-Indic digits only, not every Unicode decimal digit.
- JSON values other than strings inside objects are not modelled. Every value of an entry is a string, so the truthiness test is "not the empty string".
- `OtherKey` names one of the seven known key names only through its own constructor. An `OtherKey("title")` is not identified with `Title`.
- Crawl.ScrapeUntilNoMorePages: the loop is cut off after `fuel` pages. A catalog whose pages never become empty is modelled only up to that bound.
- Cleaning.FormatEntry: the title and area are stated through `FormatTitle` and `Text.RemoveAll`. Their meaning is proved in `Cleaning.FormatTitleSpec` and in `Text.RemoveAll`'s own contract.
- Text.RemoveAll: for a multi-character pattern the contract gives only the length bounds and the no-occurrence case, not the exact result. The exact result for a one-character pattern is `Text.RemoveCharIsWithout`.
- A fetch error ends the unbounded scan, because `scrape_page` returns `[]` on an exception in its `try` block (playground.py:43-45, 119-120). So a transient load error ends the scan early, as an empty page does (`Crawl.FetchErrorEndsScan`).
