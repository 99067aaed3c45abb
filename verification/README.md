# Best-director scraper: extraction core in Dafny

This project models the extraction core of `codex-playwright/scrape_directors.py`. The script reads the
"Multiple wins" table of the Academy Award for Best Director page and picks the top directors, tier by tier.
For each director it reads the biography infobox and the lead paragraph of their page. It flattens each
record into a CSV row in a fixed column order. Everything between the browser fetch and the CSV write is
modelled as pure functions over immutable data:

- `Clean` (clean.dfy): `_clean_text` / `_clean_fragment`, each regular-expression stage as its own
  left-to-right scan, and `_finalize_list`. The predicate `IsClean` describes every cleaned string.
- `Labels` (labels.dfy): the `FIELD_ALIASES` table and `_normalize_label`.
- `Tiers` (tiers.dfy): `DirectorEntry` and `parse_top_directors`. The table is its rows of cells. The
  random generator is a stream of draws, `draw: nat -> nat`, used the way `Random.sample` uses its
  draws on the pool path: pick an index below the live pool size, then move the last live element into
  its slot.
- `Tree` (tree.dfy): the lxml element tree (tag, id, class, style, text, children, tail), the structural
  selectors the XPath queries use, `itertext`, `text_content` and `drop_tree`. Dropping an element keeps
  its tail text.
- `Dicts` (dicts.dfy): Python's insertion-ordered `dict` as an association list, plus `dict.fromkeys`
  deduplication.
- `Infobox` (infobox.dfy): `_parse_infobox` and `extract_director_bio`.
- `Json` (json.dfy): `orjson.dumps(..., OPT_SORT_KEYS)` of a string-to-string dictionary, with a reader
  as its partner.
- `CsvRows` (csvrows.dfy): `CSV_FIELD_ORDER`, the record assembled on lines 226-235 and `_rows_for_csv`.
- `Strings`, `Results` (strings.dfy, results.dfy): shared character classes, joining, decimal digits,
  code-point order, and `Option`/`Result`. The two `ValueError`s become `Err(WinsTableMissing)` and
  `Err(InfoboxMissing)`.

The randomness is a parameter. The page markup is given already parsed, as a `Tree.Node` or, for the
wins table, as its rows.

Three behaviours of the code are worth stating on their own:

- The tier loop (lines 176-183) takes whole tiers while they fit and then fills the rest of `top_n`
  with a sample from the first tier that does not fit. With tiers 4,3,3,2,2,2,1,1 and five requested,
  it takes the three entries of the top two tiers and samples two of the three tier-2 entries.
  `Tiers.ParseTopDirectorsSpec` states the length as `min(top_n, #entries)`.
- The removal of citation superscripts inside marriage displays (line 124) never changes anything:
  line 112 has already dropped every `sup` of the cell. `Infobox.SpouseStepNoOp` proves this.
- A nickname-derived `birth_name` is set at the `born` row only when no earlier row set one
  (line 121), but a later explicit "Birth name" row still overwrites it (line 131).
  `Infobox.ApplyBirthName` and `Infobox.LastRowWins` state both.

## Model

| member | source | states |
|---|---|---|
| Clean.ReplaceSpecials | codex-playwright/scrape_directors.py:69-70 | The four replacements leave no no-break space, zero-width space, newline or middle dot, add only spaces and `;`, and leave a text without those characters unchanged |
| Clean.CleanTextIsClean | codex-playwright/scrape_directors.py:66-74 | The output of `_clean_text` is clean: no newline, no-break space, zero-width space or middle dot; plain spaces only, never two whitespace characters in a row; every `;` followed by exactly one space; no citation left; no space, `;`, `,` or newline at either end |
| Clean.CleanTextFixesClean | codex-playwright/scrape_directors.py:66-74 | Text that is already clean comes back unchanged |
| Clean.CleanTextIdempotent | codex-playwright/scrape_directors.py:66-74 | Cleaning twice gives the same as cleaning once |
| Clean.CleanTextHasNoCitation | codex-playwright/scrape_directors.py:53-71 | No position of the cleaned text starts a `CITATION_RE` match (whitespace, `[`, one or more non-`]`, `]`) |
| Clean.CleanTextOfBlank | codex-playwright/scrape_directors.py:66-74 | Empty or all-whitespace input cleans to the empty string |
| Clean.CleanTextDropsTrailingSpace | codex-playwright/scrape_directors.py:72-74 | A clean non-empty text with one trailing space cleans back to the text itself |
| Clean.StripCitationsIdentity | codex-playwright/scrape_directors.py:53-71 | The citation substitution leaves a text alone when none of its `[` can start a citation |
| Clean.CollapseSpacesIdentity | codex-playwright/scrape_directors.py:72 | The whitespace collapse leaves a text alone when its only whitespace is single plain spaces |
| Clean.CollapseSeparatorsIdentity | codex-playwright/scrape_directors.py:73-86 | Both `;` collapses (one or more, and two or more) leave a text alone when every `;` is followed by exactly one space and then by a non-separator |
| Clean.TrimKeeps | codex-playwright/scrape_directors.py:74-87 | Stripping the ends keeps the text free of special characters, of non-plain whitespace, of double spaces and of citations; and when `;` and space are stripped, every `;` left is followed by a space and a non-separator |
| Clean.CleanedItemsAreClean | codex-playwright/scrape_directors.py:82 | Every item `_finalize_list` keeps is a clean string |
| Clean.CleanedItemsEmpty | codex-playwright/scrape_directors.py:82-84 | No item survives exactly when every part cleans to the empty string |
| Clean.FinalizeListIsJoin | codex-playwright/scrape_directors.py:81-87 | `_finalize_list` equals the `"; "` join of the non-empty cleaned parts in order, so the collapse and strip on lines 86-87 never change it; the result is empty exactly when every part cleans to empty, and it holds no special character |
| Clean.WordCleans | codex-playwright/scrape_directors.py:66-74 | A plain word cleans to itself, with or without one trailing space |
| Clean.FinalizeListExample | codex-playwright/scrape_directors.py:81-87 | `["Director", "", "Producer "]`-shaped input gives `"Director; Producer"` |
| Clean.FinalizeListPair | codex-playwright/scrape_directors.py:81-87 | Two words, the first with a trailing space, give `first; second` |
| Labels.SlugIsSlug | codex-playwright/scrape_directors.py:54-96 | Replacing every `[^0-9a-z]+` run by `_` and stripping `_` gives only `[0-9a-z_]`, no `__`, and no `_` at either end |
| Labels.SlugKeepsAlnums | codex-playwright/scrape_directors.py:54-96 | The slug keeps every lower-case letter and digit of the lowered label, in order |
| Labels.SlugFixesSlugs | codex-playwright/scrape_directors.py:96 | A string that is already a slug is its own slug |
| Labels.AliasValuesAreSlugs | codex-playwright/scrape_directors.py:16-33 | Every `FIELD_ALIASES` value is a slug |
| Labels.NormalizeLabelIsSlug | codex-playwright/scrape_directors.py:90-97 | Every normalised label, including that of the empty label, is a slug |
| Labels.NormalizeLabelKeepsAlnums | codex-playwright/scrape_directors.py:93-96 | A label whose lower-case form is not an alias keeps all its lower-case letters and digits, in order |
| Labels.NormalizeLabelCaseInsensitive | codex-playwright/scrape_directors.py:90-97 | Two headers with the same lower case get the same key, and a header gets the same key as its lower case |
| Labels.NormalizeLabelKeepsSlugs | codex-playwright/scrape_directors.py:90-97 | A slug that is not an alias key normalises to itself |
| Labels.NormalizeLabelSpouses | codex-playwright/scrape_directors.py:24-95 | "Spouses" and "spouses" both normalise to `spouse` |
| Tiers.TableEntriesSkipsHeader | codex-playwright/scrape_directors.py:145-165 | The first row of the table is skipped whatever it holds, and the entries are those of the rows below it in row order, each under the count of the latest row at or above it that announces one |
| Tiers.WinsOfSpec | codex-playwright/scrape_directors.py:153-157 | A row sets the win count exactly when it has two cells and its cleaned first cell holds a digit; the count is the number written by all the digits of that cell, in order |
| Tiers.WinsOfCitedCount | codex-playwright/scrape_directors.py:153-157 | A count cell with a citation, such as `4[a]` or `4[1]`, gives the count without the citation: 4 |
| Tiers.WinsOfSpacedDigits | codex-playwright/scrape_directors.py:153-157 | Digits split by a space, such as `1 1`, are read as one number: 11 |
| Strings.KeepDigitsAppend | codex-playwright/scrape_directors.py:155 | The digits kept from two joined strings are the digits of the first followed by those of the second |
| Clean.CleanTextDropsCitation | codex-playwright/scrape_directors.py:53-74 | Clean text without `[` followed by a citation `[x]` cleans to the text alone |
| Tiers.ParseRowsIsRef | codex-playwright/scrape_directors.py:147-165 | The row loop agrees with a reference read backwards: each row contributes its entry under the count of the latest two-cell row at or above it that announces one |
| Tiers.SortedKeysSpec | codex-playwright/scrape_directors.py:168-171 | The tier keys are strictly decreasing and are exactly the win counts that occur |
| Tiers.SampleSpec | codex-playwright/scrape_directors.py:182 | `rng.sample(bucket, k)` returns `k` elements drawn without replacement from the bucket (a sub-multiset), whatever the draws |
| Tiers.SelectChosen | codex-playwright/scrape_directors.py:173-183 | Continuing the tier walk from any point where every tier above has been taken whole, in order of wins, and the budget is not yet full, ends in a valid choice: `min(top_n, #entries)` distinct entries, non-increasing wins, none left out with more wins than one taken |
| Tiers.SelectFromTop | codex-playwright/scrape_directors.py:172-184 | The tier walk chooses `min(top_n, #entries)` distinct entries with non-increasing wins, and leaves out no entry with more wins than one it took |
| Tiers.ParseTopDirectorsSpec | codex-playwright/scrape_directors.py:135-188 | `top_n <= 0` gives `[]` whatever the page; a missing table is an error; otherwise the result is a valid choice among the entries the table lists below its header row, every tier above the lowest one taken is in it whole, and every tier taken in full keeps the table's row order |
| Tiers.SelectTiers | codex-playwright/scrape_directors.py:168-183 | Continuing the tier walk from a point where nothing below the current tier was taken and tier `k`, if at or above it, was taken whole in row order: in the result, tier `k` is whole and in row order when some entry taken has fewer wins, or when all of tier `k` was taken |
| Tree.TextContentIsConcat | codex-playwright/scrape_directors.py:154-160 | `text_content()` is the concatenation of the `itertext()` fragments |
| Tree.PruneLeavesNone | codex-playwright/scrape_directors.py:112-113 | After dropping every match of a selector, no match is left |
| Tree.PruneFixesFree | codex-playwright/scrape_directors.py:112-113 | Dropping the matches of a selector with no match changes nothing |
| Tree.PruneIdempotent | codex-playwright/scrape_directors.py:112-113 | Dropping the same matches a second time changes nothing |
| Tree.PruneKeepsText | codex-playwright/scrape_directors.py:112-113 | The text left after dropping is the original text minus the dropped elements' own text; their tails stay |
| Tree.PruneKeepsFree | codex-playwright/scrape_directors.py:112-120 | Dropping elements never creates a match for another selector |
| Tree.QuietHasNoSup | codex-playwright/scrape_directors.py:112-124 | A cell with no noise element left has no `sup` left |
| Tree.NonBlanksEmpty | codex-playwright/scrape_directors.py:203-204 | No paragraph survives the `normalize-space()` filter exactly when every paragraph is blank |
| Tree.NonBlanksFirst | codex-playwright/scrape_directors.py:203-204 | The first surviving paragraph is the first non-blank paragraph in document order |
| Dicts.GetSpec | codex-playwright/scrape_directors.py:121-131 | With distinct keys, a lookup finds the stored value, and misses exactly the absent keys |
| Dicts.PutGet | codex-playwright/scrape_directors.py:131 | Assignment keeps keys distinct, stores the value, and leaves every other key's lookup unchanged |
| Dicts.DedupSpec | codex-playwright/scrape_directors.py:122 | `dict.fromkeys` keeps each element once and exactly the elements of the input |
| Dicts.DedupOfDistinct | codex-playwright/scrape_directors.py:122 | Deduplicating a list without repeats returns it unchanged |
| Dicts.DedupPrefix | codex-playwright/scrape_directors.py:122 | The deduplicated prefix of a list is a prefix of the deduplicated list (first-seen order) |
| Infobox.ValueCellQuiet | codex-playwright/scrape_directors.py:111-125 | The cell a value is read from has no style, script, `sup` or hidden element left, and on a `born` row no nickname; on any other row it is exactly the cell minus the noise |
| Infobox.ValueCellText | codex-playwright/scrape_directors.py:111-125 | The value cell's text is the cell's text minus the noise and, on a `born` row, minus the nicknames |
| Infobox.SpouseStepNoOp | codex-playwright/scrape_directors.py:112-125 | The marriage-display step of lines 123-125 changes nothing, since line 112 already dropped every `sup` |
| Infobox.CellValuePlain | codex-playwright/scrape_directors.py:126-130 | A cell value never holds a newline, no-break space, zero-width space or middle dot |
| Infobox.HeaderlessRowSkipped | codex-playwright/scrape_directors.py:103-109 | A row without a `th`, without a `td`, or whose header has no text is skipped and leaves the dictionary as it was |
| Infobox.FragmentsBecomeItems | codex-playwright/scrape_directors.py:126-130 | A non-list cell such as `John <b>Ford</b>` gives its fragments as separate items, `John; Ford` |
| Infobox.FragmentRow | codex-playwright/scrape_directors.py:102-131 | A row with a word header and such a cell parses to the normalised header and the `"; "`-joined fragments |
| Infobox.ParseInfoboxWellFormed | codex-playwright/scrape_directors.py:100-132 | The parsed infobox has distinct keys, every key a slug and every value free of special characters |
| Infobox.ApplyGet | codex-playwright/scrape_directors.py:114-131 | After one row, a key other than `birth_name` holds the row's value if the row writes it, and otherwise what it held before |
| Infobox.ApplyBirthName | codex-playwright/scrape_directors.py:114-131 | After one row, `birth_name` holds the row's own value if its label is "Birth name", else the deduplicated nicknames if it is a `born` row with nicknames and none was set, else what it held before |
| Infobox.LastRowWins | codex-playwright/scrape_directors.py:102-131 | For a repeated key, the last row in document order that writes it decides the value |
| Infobox.KeyPresent | codex-playwright/scrape_directors.py:102-131 | A key other than `birth_name` is present exactly when some row writes it |
| Infobox.NoBirthName | codex-playwright/scrape_directors.py:114-131 | Without a "Birth name" row or any nickname, there is no `birth_name` |
| Infobox.NicknamesGiveBirthName | codex-playwright/scrape_directors.py:114-122 | Without a "Birth name" row, `birth_name` is the deduplicated `"; "` join of the nicknames of the first `born` row that has any |
| Infobox.ExtractDirectorBioSpec | codex-playwright/scrape_directors.py:191-205 | A page without an infobox table is an error, and only such a page; otherwise the name and summary are clean and the infobox is the parse of the first infobox table, well formed |
| Infobox.SummaryIsFirstParagraph | codex-playwright/scrape_directors.py:203-204 | The summary is empty when no paragraph of the content area has visible text, and otherwise is the cleaned text of the first one that does |
| Json.ReadEscaped | codex-playwright/scrape_directors.py:255 | Reading an escaped string body back gives the original string and stops after the closing quote |
| Json.ReadMembersBack | codex-playwright/scrape_directors.py:255 | Reading the rendered members of a non-empty dictionary gives back that dictionary |
| Json.RenderRoundTrip | codex-playwright/scrape_directors.py:255 | Reading a rendered object gives back the same dictionary, members in the same order |
| Json.SortByKeyCount | codex-playwright/scrape_directors.py:255 | Sorting the members by key is a permutation |
| Json.SortByKeyIncreasing | codex-playwright/scrape_directors.py:255 | With distinct keys, sorting leaves the keys strictly increasing by code point |
| Json.SortedUnique | codex-playwright/scrape_directors.py:255 | Two key-sorted dictionaries with the same members are equal |
| Json.DumpsCanonical | codex-playwright/scrape_directors.py:255 | The serialised infobox depends only on its members, not on their insertion order |
| Json.DumpsSpec | codex-playwright/scrape_directors.py:255 | The serialised infobox reads back as all its members, keys strictly increasing |
| Strings.DecimalRoundTrip | codex-playwright/scrape_directors.py:157-246 | The decimal string of a win count reads back as that count |
| CsvRows.FillAppends | codex-playwright/scrape_directors.py:250-254 | Filling distinct fields that are all missing from the row appends one column per field, in order, each the infobox value or `""` |
| CsvRows.FillSkips | codex-playwright/scrape_directors.py:250-252 | Fields the row already holds are skipped |
| CsvRows.CsvRowShape | codex-playwright/scrape_directors.py:244-255 | A row is the four record columns, then the twelve infobox columns, then `infobox_json` |
| CsvRows.CsvRowSpec | codex-playwright/scrape_directors.py:240-257 | A row has exactly the `CSV_FIELD_ORDER` keys in that order; name, url and summary come from the record, wins is the decimal string of the record's count, the other named columns are the infobox value or `""`, and `infobox_json` is the sorted JSON of the infobox |
| CsvRows.InfoboxJsonReadsBack | codex-playwright/scrape_directors.py:255 | The `infobox_json` column reads back as every infobox member, keys in increasing order |
| CsvRows.WinnerRow | codex-playwright/scrape_directors.py:226-235 | A director's row takes the name from the biography and the url as the site base plus the entry's relative link |

## Left out

- Page fetching with Playwright (`_fetch_html`, the browser loop of `_scrape_top_directors`) is browser
  I/O. Only the record assembly of lines 226-235 is modelled, as `CsvRows.Assemble`.
- `_write_csv`, `main` and the command-line entry point are file-system and command-line plumbing.
- HTML parsing and XPath evaluation are replaced by an already parsed element tree and structural
  selectors. Comments, processing instructions and entity decoding are not modelled.
- `Random.sample` is modelled on its pool path with an abstract draw stream. Mersenne Twister, the
  `randbelow` rejection loop and the set-based path for small samples are left out. So the model does
  not reproduce the exact entries a given seed picks, only what any draws guarantee.
- orjson's escaping is modelled after section 7 of RFC 8259: short escapes, `\u00XX` in lower-case hex
  for other control characters, and other characters written as they are. Output bytes and UTF-8
  encoding are not modelled.
- `str.lower` is modelled as ASCII lower-casing. Unicode case folding is left out, so a non-ASCII
  upper-case letter in a header is treated as a non-word character.
- `_parse_infobox` mutates the cell it reads. The model reads each row's cell from the tree as it was
  before that row's own changes. A row nested inside an earlier row's data cell is therefore read
  without the earlier row's drops. `extract_director_bio` likewise reads the name and summary from the
  tree before the infobox drops.
- Tiers.ParseTopDirectorsSpec: the order of the entries of a sampled tier is the order of the draws; no property of that order is stated, because the draws are abstract.
- Infobox.HeaderlessRowSkipped: covers a header with no text fragment at all, not every header whose text cleans to empty (that case is skipped by the same branch of `ParseRow`).
- Clean.FinalizeListIsJoin: no idempotence is claimed for `_finalize_list`, because joining two clean items can create a citation (`a [b` and `c]`).
