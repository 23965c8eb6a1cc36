# Voila focused scraper — a Dafny model of its collection engine

This project models the engine of `VoilaFocusedScraper`, a scraper that walks
the product categories of a grocery web shop. The browser part is left out.
The model covers four parts of the scraper.

- **The resume planner** (`check_existing_files`, `load_existing_products`,
  `auto_continue_from_existing`, `handle_existing_files`). It finds which
  categories already have a CSV file, reloads saved products, and decides
  what to scrape next. In interactive mode it also reads the operator's
  answers.
- **Card extraction with the seen-name gate** (`fast_process_products`). One
  product card becomes at most one product.
  - The name is the first line longer than two characters that mentions none
    of "add", "cart", "price" in any letter case.
  - The price is the `$` amount of the price span, and 0 otherwise.
  - The size is the first match of the quantity-unit pattern, and "Unknown"
    otherwise.
  - A name that is already seen anywhere in the run is skipped.
- **The scroll loop** (`scrape_category`) and the category loop
  (`scrape_all_target_categories`).
  - The scroll loop stops after 100 scrolls, at 1000 products of the
    category, or when the stall counter reaches five. A script call that
    raises ends the whole category run instead.
  - A scroll without growth adds one to the stall counter. A growing scroll
    whose cards were read resets it to zero. A growing scroll whose card
    enumeration raised leaves it unchanged, so five non-growing scrolls end
    the loop even with such a scroll between them.
  - After the loop, unless a script call raised, a final enumeration is
    processed and then the category is saved. A final enumeration that
    raises adds nothing, and the category is still saved.
- **The result store** (`save_category_results`, `save_results`).
  - A category file holds that category's rows, without duplicate
    (name, price) pairs.
  - The progress file and the FINAL file hold all rows, without duplicate
    (name, price, category) triples.
  - The budget files hold the rows priced at or under 5.0. This includes
    products read as 0.0 because they had no price span.

How the modules are laid out:

- `Common` has small sequence utilities: `Option`, `FirstIndex`, `Filter` and
  `Map`.
- `Text` models Python's `str.strip`, `split('\n')`, `lower()` and `in` on
  ASCII text.
- `Records` has the product record.
- `Naming` has the file names and the configured categories.
- `Extraction`, `Store`, `Planner` and `Collector` hold the behaviour as pure
  functions, with lemmas about them.
- `Scraper` has the class `VoilaScraper`. Its fields `products` and `seen`
  change in place, as in the source, and each of its methods is proved to
  compute what the function of the same operation in the other modules says.
  The working directory is a `FileStore` object holding a map from file name
  to table. A table is either readable rows or unreadable, where unreadable
  stands for a file that `pd.read_csv` fails on.

The browser becomes a `Page` value of oracles. Each oracle says:

- whether the page opens;
- for each scroll, whether the page grew, did not grow, or the script call
  raised;
- for each scroll, which cards the enumeration returns, or that it raised;
- which cards the final enumeration returns, or that it raised.

The operator's replies to `input()` become a sequence of answers.

Some behaviours of the code are easy to miss. The model keeps each of them
as written.

- Reloading saved products fills the product list but never the seen-name
  set. So a card whose name is among the reloaded rows is collected again
  (`Scraper.ReloadedNameCollectedAgain`). The invariant `VoilaScraper.Valid`
  therefore speaks only of the products collected since the last reload.
- The unit alternatives are tried in the pattern's order, and `lb` comes
  before `lbs`, so "lbs" is never matched whole and "3 lbs" yields the size
  "3 lb" (`Extraction.PoundsBeforeLbs`, `Extraction.SizeOfPounds`).
- The pattern has no word boundary after the unit, so "2 large" yields the
  size "2 l" (`Extraction.SizeOfLarge`).
- A category with no products of its own in the product list is not
  saved, even when other categories have products. Reloaded rows count: a
  category with reloaded rows but no new cards is saved again.
- Automatic resume reloads the saved products only when some category is
  still missing.

## Model

| member | source | states |
|---|---|---|
| Text.StripSpec | main.py:223 | the stripped text is a slice of the input with only whitespace cut from both ends, and it neither starts nor ends with whitespace |
| Text.StripEmptyIffBlank | main.py:227 | a line strips to the empty string exactly when it is all whitespace |
| Text.SplitThenJoin | main.py:227 | splitting at newlines and joining the pieces with newlines gives back the text |
| Text.JoinThenSplit | main.py:227 | pieces without newlines, joined and split again, come back unchanged |
| Text.SplitLinesNoNewline | main.py:227 | no piece of a split contains a newline |
| Text.NonBlankSpec | main.py:227 | every kept line is non-empty and is the strip of one of the pieces |
| Text.NonBlankKeeps | main.py:227 | no line with text in it is dropped: its strip is kept |
| Text.NonBlankStripped | main.py:227 | every kept line starts and ends with a character that is not whitespace |
| Naming.FileNameShape | main.py:65-66 | a category file name is `voila_` + one character per category character (lower-cased when in `[\w\-_.]`, `_` otherwise) + `.csv`, and holds only safe characters |
| Naming.SanitiseIdempotent | main.py:65 | sanitising a sanitised name changes nothing |
| Naming.LowerKeepsSafety | main.py:65 | lower-casing never moves a character into or out of the safe class |
| Naming.DairyEggsFileName | main.py:52-66 | the category "Dairy & Eggs" is stored as `voila_dairy___eggs.csv` |
| Extraction.ExtractCardName | main.py:223-238 | a card is rejected exactly when its stripped text is shorter than 10 characters or no line may serve as a name; otherwise the name is the first line that may |
| Extraction.ExtractCard | main.py:240-276 | an extracted product carries the card's category, no unit price, the price read from the price span, `has_price` exactly when that price is positive, the size chosen from its lines (see SelectSizeSpec) and the stripped offer text when there is one |
| Extraction.HaddockIsNoName | main.py:232-236 | "Haddock Fillet" can never be a product name, because its lower-cased form contains "add" |
| Extraction.ParsePrice | main.py:242-249 | a read price is never negative, and it is non-zero only for text that is `$` followed by digits, or by digits, a point and digits; any other text reads as 0 |
| Extraction.DigitsRead | main.py:246-247 | `$` followed by digits reads as the number the digits spell |
| Extraction.DollarsRead | main.py:246-247 | `$` followed by digits, a point and digits reads as that decimal |
| Extraction.PriceLabelRoundTrip | main.py:241-249 | a price printed as `$` dollars `.` two digits is read back as exactly that many cents over 100 |
| Extraction.DigitsRoundTrip | main.py:247 | the decimal digits of a number are read back as that number |
| Extraction.FirstUnit | main.py:253-254 | the unit alternative chosen is the first in pattern order that occurs at that position, ignoring case, and there is none only when no unit occurs there |
| Extraction.FractionEnd | main.py:253 | the optional fraction consumes either nothing, or a point followed by at least one digit and only digits |
| Extraction.SearchFrom | main.py:253-254 | the search finds the leftmost position where the pattern matches, and finds nothing only when it matches nowhere |
| Extraction.MatchIsToken | main.py:253-254 | every match is a size token: digits, an optional point and digits, whitespace, then the first unit alternative that occurs there |
| Extraction.TokenIsMatched | main.py:253-254 | wherever a size token starts, the pattern matches exactly that token |
| Extraction.TokenUnique | main.py:253-254 | at most one size token starts at any position, because its unit is the first alternative in pattern order that occurs there |
| Extraction.SelectSizeSpec | main.py:251-257 | a card's size is the leftmost size token of the first line that holds one |
| Extraction.SelectSizeUnknown | main.py:251-257 | a card whose lines hold no size token has the size "Unknown" |
| Extraction.SizeInLeftmost | main.py:251-257 | the size found in a line is its leftmost size token (unique at that position), and there is none only when the line holds no size token |
| Extraction.PoundsBeforeLbs | main.py:253 | wherever "lbs" occurs in any letter case, the alternative "lb" is picked, so "lbs" is never matched whole |
| Extraction.SizeOfPounds | main.py:253 | the line "3 lbs" yields the size "3 lb" |
| Extraction.SizeOfLarge | main.py:253 | the line "2 large" yields the size "2 l" |
| Extraction.AdmitFresh | main.py:238-278 | the gate keeps no name that was seen before, never the same name twice, and only products that were extracted |
| Extraction.AdmitCovers | main.py:238-278 | after the gate, every extracted name is seen, either from before or because its product was kept |
| Extraction.AdmitAppend | main.py:238-278 | gating two batches in turn equals gating them together, with the second batch seeing the first batch's names |
| Extraction.AdmitAllSeen | main.py:238 | outcomes whose names are all seen yield no product |
| Extraction.ExtractAllAt | main.py:221 | each card's outcome is that card's own extraction, one outcome per card |
| Extraction.HarvestFresh | main.py:218-283 | one pass appends products of the category whose names are new and distinct, each extracted from one of the cards |
| Extraction.HarvestIdempotent | main.py:238-278 | processing the same cards again, after the first pass's names are seen, appends nothing |
| Store.DropDuplicatesSpec | main.py:357 | duplicate removal keeps only input rows, keeps no two rows with the same key, and loses no key |
| Store.DropDuplicatesKeepsFirst | main.py:357 | duplicate removal keeps the first row of each key, in input order |
| Store.DropDuplicatesOfDistinct | main.py:357 | rows whose keys are already distinct are kept as they are |
| Store.DropDuplicatesIdempotent | main.py:357 | removing duplicates twice is the same as once |
| Store.SamePriceOnlyOnce | main.py:357 | two rows with the same name but different prices both stay in a category file, and a repeated row stays once |
| Store.CategoryFileRows | main.py:350-361 | a category file holds rows of that category only, no two with the same name and price, and every (name, price) of the category |
| Store.BudgetRows | main.py:369-373 | the budget rows are exactly the rows whose price is known and at most 5.0 |
| Store.AllRowsSpec | main.py:365-367 | the progress rows come from the products, have distinct (name, price, category), cover every such triple, and are empty only without products |
| Store.SaveCategoryNothing | main.py:346-354 | without products, or without products of the category, no file changes |
| Store.SaveCategoryWrites | main.py:345-375 | a save writes the category file and the progress file, writes the budget progress file only when it has rows and otherwise leaves an earlier one as it was, and touches no other file |
| Store.SaveFinalWrites | main.py:396-423 | the final save writes the FINAL file, writes the budget FINAL file only when it has rows and otherwise leaves an earlier one as it was, and touches no other file |
| Planner.Labels | main.py:119 | the category list is the targets' labels, in order |
| Planner.Partition | main.py:62-86 | the existing categories and the missing categories together are the targets, each exactly once |
| Planner.PartitionFiles | main.py:72-76 | every existing category's file is present under its name, and every missing category's file is absent |
| Planner.MissingIff | main.py:72-76 | a target is missing exactly when its file is absent |
| Planner.MissingFrom | main.py:72-76 | every missing category is a target whose file is absent |
| Planner.PresentIn | main.py:84 | every run-wide file reported present exists and is one of the four names |
| Planner.FreshDirectory | main.py:62-86 | with none of the scraper's files present, nothing is found and every category is missing |
| Planner.LoadedRowsAppend | main.py:102-109 | loading a list of files equals loading its two halves one after the other |
| Planner.LoadSkipsUnreadable | main.py:102-109 | a file that cannot be read contributes no rows and does not stop the others from loading |
| Planner.ReloadExtends | main.py:100-109 | without a readable progress file, the reload keeps the product list and appends the rows of the readable existing category files, in target order |
| Planner.ReloadFromProgress | main.py:91-96 | with a readable progress file, the product list becomes exactly its rows, whatever it held before |
| Planner.FreshStart | main.py:117-119 | with no files present, both modes scrape every category without reloading |
| Planner.ChoiceOneIsAuto | main.py:182-189 | answer 1 plans exactly what the automatic mode plans |
| Planner.NothingMissing | main.py:137-139 | when files exist and every category is complete, the automatic mode scrapes nothing and reloads nothing |
| Planner.ChoiceTwoStartsOver | main.py:191-209 | answer 2 deletes every existing file of the scraper, keeps every other file, and plans every category |
| Planner.ChoiceThreeExits | main.py:211-213 | answer 3 stops without changing anything |
| Planner.InvalidAnswerAsksAgain | main.py:179-216 | an answer other than 1, 2 or 3 is ignored and the question is asked again |
| Planner.AutoNeverRecollects | main.py:114-139 | the automatic mode scrapes only categories whose file is absent, and reloads only when there are some |
| Collector.ScrollBound | main.py:303 | the scroll loop never goes past 100 scrolls |
| Collector.CapReached | main.py:303 | the loop ends on a cap only at 100 scrolls or 1000 products of the category |
| Collector.ScrollFailure | main.py:303-311 | the loop fails only at a scroll whose script call raised |
| Collector.ExhaustedAtFifthStall | main.py:313-329 | the stall counter is the number of non-growing scrolls since the last successful growth, and the loop ends for lack of growth exactly when it reaches five |
| Collector.StallsBelowFiveUntilEnd | main.py:324-329 | before the loop ends, the stall count is always below five |
| Collector.FiveStallsStop | main.py:324-329 | five non-growing scrolls in a row end the loop within those scrolls, and not by failure |
| Collector.FlatPage | main.py:303-329 | a page that never grows ends after exactly five scrolls, for lack of growth, and collects nothing |
| Collector.EndlessPage | main.py:303-323 | a page that always grows but whose cards never load runs into the 100-scroll cap |
| Collector.ScrollFresh | main.py:303-321 | the loop only appends products of the category whose names are new and distinct, and adds just those names to the seen set |
| Collector.CategoryRunFresh | main.py:285-343 | scraping a category only appends new, distinct-named products of that category |
| Collector.CategoryRunFiles | main.py:331-343 | files change only when the page opened and no script call failed, and then exactly as the category save says |
| Collector.UrlOf | main.py:389-390 | a category's URL is the one configured for it, and there is none for a name that is not a target |
| Collector.ScrapeEachAppend | main.py:388-394 | scraping two lists of categories in turn equals scraping them joined |
| Collector.UnknownSkipped | main.py:389-394 | a name that is not a target is skipped without effect |
| Collector.ScrapeEachFresh | main.py:377-394 | a whole run only appends products with new, distinct names and adds just those names to the seen set |
| Scraper.VoilaScraper.constructor | main.py:19-60 | a new scraper has the eight target categories, no products and no seen names |
| Scraper.VoilaScraper.CheckExistingFiles | main.py:62-86 | the method returns the existing category files, the missing categories and the run-wide files present, in list order |
| Scraper.VoilaScraper.FindPresent | main.py:84 | the method returns the names that exist, in their order |
| Scraper.VoilaScraper.LoadExistingProducts | main.py:88-112 | the product list becomes its reload from the files, and the seen names stay as they were |
| Scraper.VoilaScraper.LoadCategoryFiles | main.py:102-109 | the rows of every readable listed file are appended, in order |
| Scraper.VoilaScraper.AutoContinueFromExisting | main.py:114-139 | the method returns the automatic plan and reloads exactly when that plan says so |
| Scraper.VoilaScraper.HandleExistingFiles | main.py:144-216 | the method returns the plan of the first valid answer, leaves the files that plan leaves, and reloads exactly on answer 1 with missing categories |
| Scraper.VoilaScraper.RemoveFiles | main.py:194-206 | exactly the existing category files and the run-wide files found are deleted |
| Scraper.VoilaScraper.FastProcessProducts | main.py:218-283 | one pass appends exactly the gated products, marks their names seen, returns their count, and keeps the run's products distinct by name |
| Scraper.VoilaScraper.Consider | main.py:238-278 | an outcome is collected exactly when it is a product whose name is not seen yet |
| Scraper.VoilaScraper.Collect | main.py:276-277 | appending an unseen product adds it and its name and keeps the run's names distinct |
| Scraper.VoilaScraper.ScrapeCategory | main.py:285-343 | the products, the seen names and the files end as the category run says |
| Scraper.VoilaScraper.SaveCategoryResults | main.py:345-375 | the files end as the category save says |
| Scraper.VoilaScraper.SaveResults | main.py:396-423 | the files end as the final save says |
| Scraper.VoilaScraper.ScrapeAllTargetCategories | main.py:377-394 | the products, the seen names and the files end as scraping the given categories in order says, with every target scraped when none are given |
| Scraper.ReloadedNameCollectedAgain | main.py:88-112 | after a reload, a card named like a reloaded row is collected again, so the list holds that name twice |
| Scraper.AppendFresh | main.py:276-277 | appending a product with a new name keeps the names distinct and adds exactly that name |

## Left out

- Selenium is not modelled. The browser, navigation, the page-height
  script, the card enumeration and the span lookups are replaced by the
  oracles of a `Page` and the fields of a `Card`.
- The sleeps, all console output, the run statistics printed by
  `save_results`, and `max_retries`, which is never read, are left out.
- `__init__`'s browser set-up, `is_auto_restart`, the `main` entry point
  (with its inline block that tests the category URLs) and `close` are
  outside the modelled engine.
- `input()` is a sequence of answers. When the answers run out before a
  valid one, the plan is `NoAnswer`; in the program, `input()` would raise
  at end of input.
- Deleting and writing files is assumed to succeed. A failing `os.remove`
  or `to_csv` is not modelled. A failing `read_csv` is modelled as an
  unreadable table.
- CSV formatting is not modelled: a reloaded file yields the rows that were
  saved. pandas' NaN for an empty cell becomes an absent value, and the
  empty-cell behaviour of `read_csv` is not modelled beyond that.
- Extraction.ParsePrice: only `digits` and `digits.digits` are read. Other
  text that Python's `float()` accepts, such as exponents, signs, `inf`,
  underscores, or a point with digits on one side only, reads as 0 instead
  of its value.
- Prices are exact reals, where the program has binary floating point.
  The two can differ in the `<= 5.0` budget test and in duplicate keys for
  decimals written with more digits than a double holds.
- Text: `\w`, `\s`, `str.strip`, `lower()` and `re.IGNORECASE` are modelled
  on ASCII characters only; Unicode letters and spaces are not.
- The per-card `except Exception: continue` has no counterpart, because
  nothing in the modelled extraction can raise. A raising `find_elements`
  in the scroll loop or the final pass is modelled: it is the `None` case of
  the enumeration oracle.
- Store.SaveCategoryWrites requires that the category's file name is not
  one of the four run-wide file names, since a collision would make one
  write overwrite the other. No configured category collides.
- Collector.CapReached states `>=` for the cap; together with
  Collector.ScrollBound this gives exactly 100 scrolls for the scroll cap.
- Scraper.VoilaScraper.Valid only speaks of products collected since the
  last reload, because a reload does not seed the seen names (see above).
