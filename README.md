# Lead-generation scraper: record cleaning and page enrichment

The scraper collects Facebook ads for a keyword and country. It reduces them to one row per advertiser page, then enriches each page with contact details. All of its logic sits in three sequential loops over loosely typed records. This project models those loops in Dafny and proves their contracts:

- `clean_ads` in `Phase1_scraper.py`. It resolves a page name, a page URL and an ad text for each raw ad, and keeps the first ad of each page. It has no `try`, so a record of an unexpected shape makes the whole call raise.
- The cleaning loop of `scrape_meta_ads` in `streamlit_UI.py`. It is a variant of the same loop with its own rules:
  - the page is added to `seen` before its text is read;
  - `pageUrl` is never read;
  - only nested text is stripped;
  - an exception is caught for each ad and shown as a warning.
- `enrich_facebook_pages` in `streamlit_UI.py`. It deduplicates the rows by stripped `page_name`, and asks a page scraper about each new page. A row is kept when the scraper returns items; six fields are copied from the first item.

Files:

- `wrappers.dfy`: `Option` and `Result`.
- `py_strings.dfy`: the exact `str.strip()` and `str.replace(' ', '')`.
- `records.dfy`: the Python value model. It covers truthiness, hashability, `dict.get` and `or`.
- `first_seen.dfy`: first-seen deduplication with a `seen` set, stated once for all three loops.
- `phase1_scraper.dfy`: `clean_ads`.
- `streamlit_ui.dfy`: both loops of the Streamlit front end.

Each loop is a `method` with a `while` loop that updates `seen` and the output list, as the source does. Its loop invariant ties the local state to a left fold over the input prefix (`CleanPrefix`, `ScrapePrefix`, `EnrichPrefix`). Meaning lemmas then connect each fold to a declarative description: the rows come from the first occurrences of each key, in input order (`FirstSeen.FirstIndices`).

Python values are a datatype `Value` (`None`, str, number, list, dict). A record is a `map<string, Value>`. An exception that escapes a function becomes an `Err`. Warnings shown with `st.warning` are collected, in order, in a list. The call to the page-scraper actor is a function parameter `lookup: string -> Lookup`. It returns the dataset items, or `LookupFailed` when the actor call or the dataset read raises.

Notes on how the code behaves:

- In `clean_ads`, a truthy `snapshot` or `body` that is not a dict raises. So does a nested `text` that is not a str, including `None`, when `.strip()` runs on it.
- In `clean_ads`, text extraction runs for every record, including duplicates of a page already seen. A malformed duplicate therefore still raises.
- In enrichment, `.strip()` on `page_name` sits outside the `try`. A `page_name` that is not a str, such as a NaN cell, makes the whole call raise.

## Model

| member | source | states |
|---|---|---|
| PyStrings.StripLeftSpec | Phase1_scraper.py:58 | `lstrip` keeps the longest suffix not starting with whitespace; what it drops is all whitespace |
| PyStrings.StripRightSpec | Phase1_scraper.py:58 | `rstrip` keeps the longest prefix not ending with whitespace; what it drops is all whitespace |
| PyStrings.StripSpec | Phase1_scraper.py:58 | `strip()` returns a slice of its argument with only whitespace around it and no whitespace at either end; the result is empty exactly when the argument is all whitespace |
| PyStrings.StripTrimmed | Phase1_scraper.py:58 | a string without whitespace at its ends is its own strip |
| PyStrings.RemoveSpacesSpec | Phase1_scraper.py:45 | `replace(' ', '')` leaves no space, keeps the count of every other character (tabs included), shortens the string by its number of spaces, and leaves a space-free string unchanged |
| PyStrings.RemoveSpacesAppend | streamlit_UI.py:92 | `replace(' ', '')` distributes over concatenation |
| Records.Or | Phase1_scraper.py:50-51 | Python `a or b`: truthy exactly when either operand is; `a` when `a` is truthy, otherwise `b` |
| Records.PageOfPrecedence | Phase1_scraper.py:42 | a truthy `pageName` is the page; `page_name` is used only when `pageName` is absent or falsy; the page is truthy exactly when one of them is |
| FirstSeen.SeenSnoc | Phase1_scraper.py:54-60 | admitting one more record adds its key, if any, to `seen` |
| FirstSeen.IsFirstLast | Phase1_scraper.py:54 | the last record is first with its key exactly when its key is not yet in `seen` |
| FirstSeen.IsFirstPrefix | Phase1_scraper.py:54 | whether a record is first with its key depends only on the records before it |
| FirstSeen.FirstIndicesSound | Phase1_scraper.py:54-60 | every admitted index is a kept first occurrence, and admitted indices increase |
| FirstSeen.FirstIndicesComplete | Phase1_scraper.py:54-60 | every kept first occurrence is admitted |
| FirstSeen.FirstIndicesCharacterized | Phase1_scraper.py:39-60 | the admitted indices are exactly the kept first occurrences, in increasing order |
| FirstSeen.FirstKeysDistinct | Phase1_scraper.py:54-60 | no key is admitted twice |
| FirstSeen.FirstIndicesCount | Phase1_scraper.py:54-60 | when every record is kept, one record is admitted per distinct key, never more than the input length |
| FirstSeen.FirstWithKey | Phase1_scraper.py:54 | every record with a key has a first occurrence of that key at or before it |
| Phase1Scraper.ExtractFields | Phase1_scraper.py:42-52 | the page read is `PageOf`; the only exceptions of lines 42-52 are `replace` on a non-str page and `get` on a non-dict snapshot or body |
| Phase1Scraper.ExtractFieldsRaises | Phase1_scraper.py:42-52 | lines 42-52 raise exactly when a truthy non-str page meets a falsy `pageUrl` (`replace`), or when a falsy `adText` meets a truthy non-dict snapshot or body (`get`), with the fault of the first failing call |
| Phase1Scraper.ExtractFieldsValue | Phase1_scraper.py:42-52 | otherwise the page is `PageOf`, a truthy `pageUrl` is kept and a missing one is synthesized for a truthy page, and the text is a truthy `adText` or else the nested body's `text` |
| Phase1Scraper.RowForIff | Phase1_scraper.py:42-59 | a record yields a row exactly when lines 42-52 do not raise and the text reaching `.strip()` is a str |
| Phase1Scraper.RaisesOnIff | Phase1_scraper.py:42-58 | handling a record raises exactly on a bad page, a bad snapshot or body, a truthy unhashable page, or a non-str text on a page not yet seen |
| Phase1Scraper.WellFormedAdKept | Phase1_scraper.py:42-59 | a record with a falsy or str page and a non-empty str `adText` never raises, and its row holds that text stripped |
| Phase1Scraper.RowOf | Phase1_scraper.py:55-59 | the stored text is a non-empty str with no surrounding whitespace |
| Phase1Scraper.RowFor | Phase1_scraper.py:42-59 | a row's page is `PageOf`; its text is non-empty and trimmed; a truthy `pageUrl` is kept; otherwise the URL is the www prefix plus the page without spaces |
| Phase1Scraper.StepCases | Phase1_scraper.py:42-60 | one iteration raises exactly when `RaisesOn` says so; otherwise it adds a truthy page to `seen` and appends its row exactly when the page is new |
| Phase1Scraper.RaisesAtPrefix | Phase1_scraper.py:41-60 | whether a record raises depends only on it and the records before it |
| Phase1Scraper.FirstPagesSnoc | Phase1_scraper.py:54-60 | the first-occurrence indices grow by the last record exactly when its truthy page is new |
| Phase1Scraper.ErrSnoc | Phase1_scraper.py:41-60 | once a record has raised, later records change nothing: the exception and its first raising record stay |
| Phase1Scraper.OkSnoc | Phase1_scraper.py:41-60 | the loop invariant (`seen` = truthy pages so far, rows = their first records) survives one more record that does not raise |
| Phase1Scraper.CleanPrefixMeaning | Phase1_scraper.py:39-60 | the loop raises exactly when some record raises, and then at the first such record; otherwise `seen` holds every truthy page and the rows are the first occurrences' rows |
| Phase1Scraper.CleanAds | Phase1_scraper.py:37-61 | the imperative loop returns the fold's result: rows of the first occurrences when no record raises, otherwise the index and cause of the first raising record |
| Phase1Scraper.ErrPersists | Phase1_scraper.py:41-60 | an exception ends the loop: the whole input raises as its prefix did |
| Phase1Scraper.RowText | Phase1_scraper.py:48-52 | a truthy `adText` is stored stripped; otherwise `snapshot.body.text` is, with a missing or falsy snapshot or body meaning `"N/A"` |
| Phase1Scraper.CleanAdsRows | Phase1_scraper.py:39-60 | row `k` is built from the `k`-th first occurrence of a truthy page; origins increase; every first occurrence has a row |
| Phase1Scraper.CleanAdsPageNamesDistinct | Phase1_scraper.py:54-60 | no two rows share a page name |
| Phase1Scraper.CleanAdsCoversPages | Phase1_scraper.py:54-60 | every record with a truthy page is represented by a row with that page |
| Phase1Scraper.CleanAdsCount | Phase1_scraper.py:54-60 | the number of rows is the number of distinct truthy pages, at most the input length |
| Phase1Scraper.CleanAdsRowFields | Phase1_scraper.py:42-59 | every row's page is truthy and is its record's `PageOf`; its text is non-empty and trimmed; a truthy `pageUrl` is kept, otherwise the URL is synthesized |
| StreamlitUI.ExtractText | streamlit_UI.py:54-64 | a truthy `adText` is returned unchanged, unstripped, with no warning, and never raises |
| StreamlitUI.Admit | streamlit_UI.py:53-73 | a row has the ad's str page and the bare URL with spaces removed; an ad that yields no row produces an `AdFailed` warning naming its page |
| StreamlitUI.AdmitFailsIff | streamlit_UI.py:53-73 | an admitted ad yields no row exactly when its page is not a str (`replace` fails) or its nested `text`, read through a dict snapshot and a dict body, is not a str (`strip` fails) |
| StreamlitUI.AdmitInvalidSnapshot | streamlit_UI.py:55-64 | a falsy `adText` with a non-dict snapshot gives the warning `InvalidSnapshot` first and keeps the text unchanged; a str page still yields its row |
| StreamlitUI.AdmitInvalidBody | streamlit_UI.py:55-62 | a falsy `adText` with a dict snapshot and a non-dict body gives the warning `InvalidBody` first and keeps the text unchanged; a str page still yields its row |
| StreamlitUI.AdmitNestedText | streamlit_UI.py:55-70 | a dict snapshot and body with a str `text` give a row whose text is that text stripped, with no warning |
| StreamlitUI.ScrapeOriginsSnoc | streamlit_UI.py:49-51 | the admitted indices grow by the last ad exactly when it is first with its page and yields a row |
| StreamlitUI.ScrapePrefixMeaning | streamlit_UI.py:43-73 | `seen` holds every truthy hashable page met, including pages of ads that then failed; the rows are those of the first occurrences that did not fail |
| StreamlitUI.AdmitAd | streamlit_UI.py:53-73 | the imperative try-body with its `except` gives exactly the row and warnings of `Admit` |
| StreamlitUI.CleanScrapedAds | streamlit_UI.py:43-73 | the imperative loop returns the fold's rows and warnings, which are one row per first occurrence that did not fail |
| StreamlitUI.ScrapeRows | streamlit_UI.py:44-51 | row `k` comes from the `k`-th first occurrence that yields a row; origins increase; every such occurrence has a row |
| StreamlitUI.ScrapePageNamesDistinct | streamlit_UI.py:49-51 | no two rows share a page name |
| StreamlitUI.ScrapeFailureSuppressesPage | streamlit_UI.py:49-51 | a first occurrence that fails leaves its page in `seen`, so no row at all carries that page |
| StreamlitUI.ScrapeRowFields | streamlit_UI.py:66-70 | each row's page is a non-empty str; its URL is `https://facebook.com/` plus the page without spaces; a truthy `adText` is stored as is |
| StreamlitUI.ScrapeWarningsGrow | streamlit_UI.py:62-72 | warnings are only appended |
| StreamlitUI.ScrapeStepWarns | streamlit_UI.py:71-72 | one iteration warns about a truthy page that is unhashable, or new and failing |
| StreamlitUI.ScrapeSeenBefore | streamlit_UI.py:49 | before ad `i`, its page is missing from `seen` exactly when ad `i` is first with it |
| StreamlitUI.ScrapePrefixSnoc | streamlit_UI.py:46-73 | the loop state after one more ad is one iteration applied to the previous state |
| StreamlitUI.ScrapeWarnsAt | streamlit_UI.py:71-72 | the iteration for a failing ad with a truthy page emits a warning naming its page, so it is shown once that ad has been handled |
| StreamlitUI.ScrapeWarningStays | streamlit_UI.py:62-72 | a warning shown after some prefix of the ads is still among the warnings at the end |
| StreamlitUI.ScrapeFailuresWarned | streamlit_UI.py:71-72 | every failing ad with a truthy page is reported by a warning naming its page |
| StreamlitUI.AdmitIgnoresPageUrl | streamlit_UI.py:48-70 | handling an ad does not read `pageUrl` |
| StreamlitUI.ScrapeIgnoresPageUrl | streamlit_UI.py:66-70 | inputs that differ only in `pageUrl` give the same rows and warnings |
| StreamlitUI.EnrichStepCases | streamlit_UI.py:87-112 | one iteration raises exactly when `page_name` is not a str; otherwise it admits a new non-empty key and appends the merged row when the lookup returns items |
| StreamlitUI.EnrichOriginsSnoc | streamlit_UI.py:88-90 | the admitted indices grow by the last row exactly when its key is new and its lookup yields |
| StreamlitUI.EnrichOkSnoc | streamlit_UI.py:86-112 | the loop invariant (`seen` = keys so far, rows = enriched first occurrences) survives one more row |
| StreamlitUI.EnrichPrefixRaises | streamlit_UI.py:87 | the function raises exactly when some `page_name` is not a str, at the first such row |
| StreamlitUI.EnrichPrefixMeaning | streamlit_UI.py:84-113 | otherwise `seen` holds every non-empty stripped page name, and the rows are those of the first occurrences whose lookup returned items |
| StreamlitUI.EnrichErrPersists | streamlit_UI.py:87 | an exception from `.strip()` ends the loop |
| StreamlitUI.EnrichFacebookPages | streamlit_UI.py:83-113 | the imperative loop returns the fold's result: the enriched rows of the first occurrences, or the index of the first non-str `page_name` |
| StreamlitUI.PageUrlShape | streamlit_UI.py:92 | the lookup URL is `https://www.facebook.com/` followed by no space, and a space-free page name is used verbatim |
| StreamlitUI.PageUrlCollision | streamlit_UI.py:92 | two distinct page names differing by a space share one lookup URL |
| StreamlitUI.EnrichRows | streamlit_UI.py:86-110 | row `k` comes from the `k`-th first occurrence whose lookup returned items; origins increase; every such occurrence has a row |
| StreamlitUI.EnrichPageNamesDistinct | streamlit_UI.py:88-90 | at most one enriched row per stripped page name |
| StreamlitUI.EnrichedForFields | streamlit_UI.py:92-110 | a page gets a row exactly when its lookup returns items; the row carries the page, the www URL, and the first item's six fields, with `""` where a key is absent |
| StreamlitUI.EnrichRowOrigin | streamlit_UI.py:86-110 | every enriched row comes from some input row |
| StreamlitUI.EnrichRowFields | streamlit_UI.py:87-110 | each row's page name is a non-empty trimmed stripped `page_name` of some input row, and the row is the one made for that page |
| StreamlitUI.EnrichYieldGivesRow | streamlit_UI.py:99-110 | a page of the input whose lookup returned items has a row |
| StreamlitUI.EnrichRowIffYields | streamlit_UI.py:93-112 | failure isolation: a page of the input has a row exactly when its own lookup returned items, whatever the other lookups did |
| StreamlitUI.EnrichStepWarns | streamlit_UI.py:111-112 | one iteration keeps the invariant that the warnings name exactly the URLs of admitted pages whose lookup failed |
| StreamlitUI.EnrichPrefixWarns | streamlit_UI.py:86-112 | the warnings name exactly the URLs of admitted pages whose lookup failed |
| StreamlitUI.EnrichFailureWarned | streamlit_UI.py:111-112 | a failing lookup for a page of the input is reported by a warning with its URL, and the loop goes on |
| StreamlitUI.EnrichReadsOnlyPageName | streamlit_UI.py:87-92 | the result depends only on the `page_name` column, not on the input's `page_url` |

## Left out

- The Apify actor calls and dataset iteration are not modelled: `run_actor_search`, `fetch_dataset` and the actor call in `scrape_meta_ads`. They are network I/O. The items they produce are the loop's input.
- The page-scraper call in `enrich_facebook_pages` is the parameter `lookup`: a deterministic function of the URL. Two lookups of one URL in a run give the same answer. A lookup's items are assumed to be dicts, so `data.get` cannot raise.
- Items and DataFrame rows are assumed to be dicts with string keys. A non-dict ad would make `ad.get` raise before `page` is bound.
- Loading the API token, `st.stop`, CSV writing and reading, DataFrame construction, `main()` and the whole Streamlit UI are left out. They are I/O.
- The "No ads were successfully scraped." and "No pages were successfully enriched." warnings after the loops are left out. They belong to the CSV and DataFrame step.
- Python numbers are one variant `VNum(real)` standing for `int`, `float` and `bool`. NaN, infinities, integer width and the distinction between `1`, `1.0` and `True` are not modelled. A NaN `page_name` cell is simply "not a str".
- The text of exception messages and of `type(...)` in warnings is not modelled; a warning records its kind and the page or URL.
- The scraping and enrichment failures are one `LookupFailed`. Which step of the actor call failed is not modelled.
