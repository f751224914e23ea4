# AWS Stuttgart waste-collection scraper, modelled in Dafny

This project models the logic of `aws_scraper.py`, a small batch job that
reads the City of Stuttgart's waste-collection calendar for one address,
stores the pickup dates (Abfuhrtermine) per waste category in a yearly JSON
file, and reports which categories are collected tomorrow.

Three pieces of logic are modelled and proved:

- **The extractor** (`scrape_abfuhrtermine`). The rows of the schedule table
  are folded into a dict from category key to a list of date strings. A header
  row selects a category: its text is stripped and lower-cased, then the four
  German labels "restabfall", "bioabfall", "altpapier" and "gelber sack" are
  tried in that order as substrings. They select "restmuell", "biomuell",
  "altpapier" and "gelbersack". Any other text is used as the key itself. The
  header also (re)binds that key to an empty list. A data row with at least
  two cells appends its stripped second cell to the selected category. This
  happens only when a category is selected and its key is not the empty
  string (Python truthiness).
- **The notifier** (`check_tomorrow_matches`). It lists the categories whose
  date list contains tomorrow's date string, in the dict's key order.
- **The yearly file** (`update_and_save_abfuhrtermine`). Last year's file is
  removed only when this year's file does not exist yet. This year's file is
  then always (re)written.

Files:

- `wrappers.dfy`: `Option` (Python's `None`) and `Result` (raised errors).
- `text.dfy`: `str.strip()`, `str.lower()`, substring `in`, `str(int)` and
  `int(str)`, restricted to ASCII. Each comes with the lemmas the model uses.
- `ordered_dict.dfy`: a Python dict from keys to lists of strings, with its
  insertion order. Assigning to an existing key keeps its position.
- `extractor.dfy`: the rows (`Header(text)` or `Data(cells)`), the label rule
  `CategoryKey`, and the loop as the method `ScrapeRows`. The method is proved
  against the fold `Extract`. The fold (`ScanRows`, `Results`) takes the
  header-to-key function as a parameter, and `Extract` is the fold with
  `CategoryKey`. The lemmas that describe the result directly in terms of the
  rows hold for every key function, so they hold for `Extract` in particular.
- `notifier.dfy`: the filter `MatchingKeys` and the loop `CheckMatches`.
- `store.dfy`: file names, the rollover rule `Rollover`, a `Directory` class
  for the working directory, and the two entry points plus the main block.

The clock, the network and the HTML parser are parameters. The current year
is a number, tomorrow's date is a string already formatted as `DD.MM.YYYY`,
and the table is a sequence of `Row` values.

## Model

| member | source | states |
|---|---|---|
| `Text.StripTrims` | aws_scraper.py:41 | `strip()` removes whitespace at the two ends and nothing else; the result starts and ends with non-whitespace |
| `Text.Lower` | aws_scraper.py:41 | `lower()` keeps the length of the text |
| `Text.LowerAt` | aws_scraper.py:41 | `lower()` lowers each character in place: position i of the result is character i lowered, upper-case letters only |
| `Text.ContainsOccurs` | aws_scraper.py:42-48 | the label test `label in text` holds exactly when the label occurs in the text at some offset |
| `Text.ParseDecimalOfDecimal` | aws_scraper.py:70 | `int(str(n)) == n`, so `int(year) - 1` is the previous year |
| `OrderedDict.Put` | aws_scraper.py:52 | `results[key] = []` binds the key and keeps every other entry; an existing key keeps its position in the order, a new key goes last; the dict stays well formed |
| `OrderedDict.AppendTo` | aws_scraper.py:57 | `.append(date)` adds exactly that date at the end of one list; keys, order and other lists unchanged |
| `Extractor.CategoryKey` | aws_scraper.py:41-51 | a header's key is one of the four known keys or its stripped, lower-cased text |
| `Extractor.CategoryKeyIsFirstMatch` | aws_scraper.py:42-51 | the label chain is first-match-wins over the table restabfall→restmuell, bioabfall→biomuell, altpapier→altpapier, gelber sack→gelbersack |
| `Extractor.CategoryKeyFallback` | aws_scraper.py:50-51 | a header containing none of the labels gets its stripped, lower-cased text as key |
| `Extractor.RestabfallKey` | aws_scraper.py:41-43 | the header "Restabfall" selects "restmuell" |
| `Extractor.Step` | aws_scraper.py:38-57 | one iteration keeps the loop invariant: the dict is well formed and the active key has an entry |
| `Extractor.ScanRows` | aws_scraper.py:33-57 | the invariant holds after any prefix of the rows, starting from `None` and `{}` |
| `Extractor.ScrapeRows` | aws_scraper.py:33-59 | the loop returns exactly the fold `Extract` of the rows |
| `Extractor.ScanCurrent` | aws_scraper.py:34 | after any rows the active category is the key of the last header row, or `None` when there is no header |
| `Extractor.ResultKeyOrder` | aws_scraper.py:37-52 | the result's keys are the header keys in order of first occurrence, so a repeated header does not move its key |
| `Extractor.ResultKeys` | aws_scraper.py:37-52 | a key is in the result exactly when some header row has that key |
| `Extractor.NoHeaderNoResults` | aws_scraper.py:53-55 | rows without any header give `{}`, so data rows before the first header are dropped |
| `Extractor.ResultSection` | aws_scraper.py:37-57 | a key's list holds the dates of the data rows with at least two cells after that key's last header, up to the next header, in row order; the empty key's list is always empty |
| `Extractor.ResultHeaderRow` | aws_scraper.py:39-52 | a header row binds its key to `[]`, discarding the dates collected under an earlier header with the same key, and changes no other entry |
| `Extractor.ResultDataRow` | aws_scraper.py:53-57 | a data row changes nothing unless it has at least two cells and the active key is non-empty; then it appends the stripped second cell to that key's list only |
| `Extractor.OneSection` | aws_scraper.py:37-57 | a header with a non-empty key followed by two data rows gives exactly one entry, that key bound to both dates in row order |
| `Extractor.ExampleRestabfall` | aws_scraper.py:37-57 | a "Restabfall" header followed by two data rows gives exactly `{"restmuell": [date1, date2]}` |
| `Notifier.MatchingKeysSpec` | aws_scraper.py:84-88 | the matches are exactly the keys whose list contains tomorrow, each once, in key order; the result is empty exactly when no list contains it |
| `Notifier.MatchingKeys` | aws_scraper.py:84-88 | every key the filter keeps is a key of the dict whose list contains tomorrow |
| `Notifier.Matches` | aws_scraper.py:84-88 | the matches of a schedule are exactly its categories whose list contains tomorrow, once each, in the schedule's key order |
| `Notifier.CheckMatches` | aws_scraper.py:84-88 | the loop builds exactly the matches of the schedule |
| `Store.FileNameInjective` | aws_scraper.py:26 | different year texts give different file names |
| `Store.YearTextAsWritten` | aws_scraper.py:12 | the code's `'20%y'` year text is four digits that always start with "20" |
| `Store.YearText` | aws_scraper.py:12 | the year text reads back as the year |
| `Store.YearTextAgrees` | aws_scraper.py:12 | for 2000 to 2099 the code's `'20%y'` year text equals the calendar year |
| `Store.YearTextAsWrittenWrapsIn2100` | aws_scraper.py:12 | in 2100 the code's year text is "2000" |
| `Store.CurrentIsNotPrevious` | aws_scraper.py:26 | this year's file differs from the file `int(year) - 1` names, which is last year's |
| `Store.Rollover` | aws_scraper.py:69-76 | after the rollover this year's file exists; last year's file remains only if this year's file already existed; every other file is present exactly when it was before |
| `Store.RolloverSpec` | aws_scraper.py:69-76 | after a run this year's file exists; last year's file survives exactly when it existed and this year's file already existed; other files are untouched |
| `Store.RolloverIdempotent` | aws_scraper.py:69-76 | a second run in the same year leaves the set of files unchanged |
| `Store.Directory.Exists` | aws_scraper.py:69-71 | `os.path.exists` holds exactly for the files the directory holds |
| `Store.Directory.Remove` | aws_scraper.py:72 | removing an existing file drops exactly that file |
| `Store.Directory.Save` | aws_scraper.py:62-64 | writing a file replaces its content, whatever it was |
| `Store.Directory.Load` | aws_scraper.py:82-83 | reading gives the stored schedule, or `FileNotFound` when the file is missing |
| `Store.UpdateAndSave` | aws_scraper.py:68-77 | the file set follows `Rollover`, this year's file holds the freshly extracted schedule, other remaining files keep their content |
| `Store.CheckTomorrowMatches` | aws_scraper.py:79-90 | the matches of this year's file, or `FileNotFound` when it is missing |
| `Store.RunOnce` | aws_scraper.py:93-95 | update-and-save followed by the check always reports the matches of the freshly extracted schedule; afterwards the file set follows `Rollover`, this year's file holds that schedule, every other remaining file keeps its content, and the directory stays well formed for the next run |
| `Store.RunTwice` | aws_scraper.py:93-95 | two runs in the same year each report their own fresh matches; the file set after both is what one run leaves, and this year's file holds the second schedule |

## Left out

- The HTTP request (session, headers, form data, lines 13-25 and 29-30) and the environment variables `STREET`/`STREETNR`: network and process I/O.
- HTML parsing with BeautifulSoup and the `table#awstable tr` selector (lines 31, 36, 38, 54): the rows are an input, a sequence of `Header(text)` (a row with a `th` cell) and `Data(cells)` (the texts of its `td` cells). How a cell's text is assembled from the markup is not modelled.
- JSON serialisation (lines 63-64 and 82-83): a file's content is the dict itself, so the save/load round trip of the `json` library is taken as exact.
- `datetime.today()`, `timedelta` and `strftime` (lines 11-12 and 80): the year is a parameter and tomorrow's date is a ready-made string. `CURRENT_DATE` (line 11) is never used by the code.
- Console output (lines 65, 73, 77 and 89).
- Text.Strip, Text.Lower: ASCII only. Whitespace is the ASCII characters for which Python's `str.isspace()` holds, and only `A`-`Z` are lowered. Unicode whitespace and non-ASCII case mappings are not modelled.
- Store.Directory.Remove: requires that the file exists, as the code checks before calling `os.remove`. The `FileNotFoundError` of a missing file is not modelled.
- Exceptions from the network, the parser or a malformed file: not modelled.
- Store.UpdateAndSave, Store.CheckTomorrowMatches, Store.RunOnce: name this year's and last year's files with the corrected year text `YearText`, not with the `'20%y'` text of line 12. Outside 2000-2099 they therefore name different files than the code does: in 2100 the code writes `2000_abfuhrtermine.json` and may remove `1999_abfuhrtermine.json`, while the model writes `2100_abfuhrtermine.json` and may remove `2099_abfuhrtermine.json`. From 2000 to 2099 both agree (`Store.YearTextAgrees`).

## Findings

| source | as written | input that shows it | evidently intended | confidence | as-written member | corrected member |
|---|---|---|---|---|---|---|
| aws_scraper.py:12 | `CURRENT_YEAR = strftime('20%y')` fixes the century to "20" | the year 2100 gives "2000", so `2000_abfuhrtermine.json` is written and, when that file is absent and `1999_abfuhrtermine.json` exists, the latter is removed | the four-digit calendar year | not executed | `Store.YearTextAsWrittenWrapsIn2100` | `Store.YearText` |

The rest of the model uses the corrected year text. `Store.YearTextAgrees`
proves that both agree from 2000 to 2099.
