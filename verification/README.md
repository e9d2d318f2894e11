# pybaseball table scraping core, in Dafny

This project models two pieces of pybaseball's scraping layer and proves properties of them.

**The HTML table processor (`HTMLTableProcessor`).**
- A processor is built from a root URL, XPath templates for the headings and the data rows, a cell expression and an optional table class.
- The class gives the table locator: `//table[@class="C"]` or `//table`.
- Python's `str.format` puts that locator into each template wherever `{TABLE_XPATH}` appears.
- Extraction does the following:
  - reads the headings and optionally rewrites them with a mapper;
  - types every cell against the heading at its position (a row wider than the headings fails);
  - optionally puts a row-id column in front.
- Fetching by URL fails on any status above 399.
- The JSON leaderboard path does two things:
  - adds `level=0` for minor-league requests;
  - strips anchor markup from `Name` and `Team` with the regex `>(.+?)<`.

**The Baseball-Reference player game logs.**
- The log type (`batting`, `pitching` or `fielding`) is checked before anything is fetched.
- The log type selects the `t` query letter and the id of the table to read.
- The scraped table is post-processed:
  1. drop `Rk`;
  2. rename `Gtm` to `Game` and `Unnamed: 5` to `Home`;
  3. drop the totals row;
  4. turn `Home` into "was empty";
  5. keep the rows whose `Game` starts with a digit;
  6. split `Rslt` at commas into `W/L` and `Score`;
  7. drop `Rslt`, `Game` and `Gcar`.

**Modules.**

| file | module | contents |
|---|---|---|
| `results.dfy` | `Errors` | the error kinds the code raises, and `Result`/`Option` |
| `text.dfy` | `TextUtil` | `str.split`/`join` with their round trips, and the decimal rendering of integers |
| `maps.dfy` | `Maps` | small facts about map updates and map equality |
| `tables.dfy` | `Tables` | a table as headings plus rows, the pandas column and row operations the post-processing uses, and a row read by label |
| `xpath_template.dfy` | `XPathTemplate` | the table locator and `str.format` with the keyword `TABLE_XPATH` |
| `html_table_processor.dfy` | `HtmlTableProcessor` | construction, extraction from an element, from markup and from a URL |
| `leaderboard_api.dfy` | `LeaderboardApi` | `extract_text_from_html`, the minor-league parameter, and the `Name`/`Team` clean-up |
| `player_game_logs.dfy` | `PlayerGameLogs` | log type, URL, table id and `postprocess` |

**Outside code becomes parameters of the functions that use it:**
- the HTTP client;
- HTML parsing and XPath evaluation (`XPathEngine`);
- BeautifulSoup's table lookup;
- `pd.read_html`;
- the cell-typing function `postprocessing.try_parse`.

**Where the code and its description disagree, the model follows the code:**
- A bad template fails when the processor is built, because `str.format` runs in the constructor.
- A row that is too wide fails while the cells are typed, by indexing past the last heading (`IndexError: list index out of range`). A short row passes typing; pandas pads it with None when some row is as wide as the headings, and raises only when none is; the model stops before DataFrame construction.

## Model

| member | source | states |
|---|---|---|
| XPathTemplate.TableXPath | pybaseball/datasources/html_table_processor.py:24-28 | The locator always starts with `//table`. It is exactly `//table` when the class is absent or empty. |
| XPathTemplate.ClassOfTableXPath | pybaseball/datasources/html_table_processor.py:24-28 | The class can be read back from the locator: the non-empty class it was built from, or nothing for an absent or empty class. |
| XPathTemplate.TableXPathInjective | pybaseball/datasources/html_table_processor.py:24-28 | Two classes give the same locator if and only if both are unused, or both are the same non-empty class. |
| XPathTemplate.Format | pybaseball/datasources/html_table_processor.py:20-21 | A template without braces is returned unchanged. A failure is one of the errors `str.format` raises for it: a KeyError (keyword not passed), an IndexError (positional field) or a ValueError (malformed braces or field, unknown conversion, too many digits), or a feature on `TABLE_XPATH` the model does not follow (`Unmodelled`). |
| XPathTemplate.FormatField | pybaseball/datasources/html_table_processor.py:20-21 | Formatting from a field's opening brace fails only with those same error kinds. |
| XPathTemplate.NameEnd | pybaseball/datasources/html_table_processor.py:20-21 | The field-name scan stops at a `}`, `:` or `!`, stepping over an index `[...]` whole; a `{` in the name or running out of text is a ValueError with CPython's message. |
| XPathTemplate.SpecEnd | pybaseball/datasources/html_table_processor.py:20-21 | The spec scan stops at the `}` that balances the field's brace; running out of text is the "unmatched '{' in format spec" ValueError. |
| XPathTemplate.ParseField | pybaseball/datasources/html_table_processor.py:20-21 | A parsed field's name is a prefix and the remaining template a strictly shorter suffix of the text after `{`; a field that does not parse is a ValueError. |
| XPathTemplate.ArgName | pybaseball/datasources/html_table_processor.py:20-21 | The argument name is the longest prefix of the field name without `.` or `[`. |
| XPathTemplate.FieldValue | pybaseball/datasources/html_table_processor.py:20-21 | Only a field whose name is exactly `TABLE_XPATH` yields a value, and that value is the locator. A field whose argument name is not `TABLE_XPATH` always fails with a Python error, never an `Unmodelled` one. |
| XPathTemplate.FormatTemplate | pybaseball/datasources/html_table_processor.py:20-21 | For any template spelled as literal pieces and `{TABLE_XPATH}` slots (braces doubled), formatting yields the pieces with every slot replaced by the locator. |
| XPathTemplate.FormatAfterText | pybaseball/datasources/html_table_processor.py:20-21 | Brace-free text is copied to the output in front of whatever the rest of the template formats to, error included. |
| XPathTemplate.FormatFirstField | pybaseball/datasources/html_table_processor.py:20-21 | After brace-free text, a `{` not followed by `{` hands over to the field: the result is the text in front of what the field step gives. |
| XPathTemplate.FormatFieldValue | pybaseball/datasources/html_table_processor.py:20-21 | A field that parses and yields a value is replaced by it, and formatting goes on after the field's closing brace. |
| XPathTemplate.FormatFieldMalformed | pybaseball/datasources/html_table_processor.py:20-21 | The first field, if it does not parse, is the error, whatever follows. |
| XPathTemplate.FormatFieldRejected | pybaseball/datasources/html_table_processor.py:20-21 | The first field, if it parses but its lookup fails, is the error, whatever follows. |
| XPathTemplate.FormatSlotVariants | pybaseball/datasources/html_table_processor.py:20-21 | `{TABLE_XPATH!s}`, `{TABLE_XPATH:}` and `{TABLE_XPATH!s:}` are replaced by the locator, like `{TABLE_XPATH}`. |
| XPathTemplate.FormatRejectsConversion | pybaseball/datasources/html_table_processor.py:20-21 | A conversion other than `s`, `r` or `a` on `TABLE_XPATH` is the ValueError "Unknown conversion specifier X", with X the character or its hex code. |
| XPathTemplate.FormatRejectsConversionSyntax | pybaseball/datasources/html_table_processor.py:20-21 | After `!` comes one character and then `}` or `:`: anything else is "expected ':' after conversion specifier", a template ending at the `!` is "end of string while looking for conversion specifier", and one ending after the character is "unmatched '{' in format spec". |
| XPathTemplate.FormatSkipsIndex | pybaseball/datasources/html_table_processor.py:20-21 | An index in a field name is skipped up to its `]`, braces included: `{a[{b}]}` is a KeyError for `a`. |
| XPathTemplate.FormatRejectsOpenIndex | pybaseball/datasources/html_table_processor.py:20-21 | A `[` in a field name that is never closed is "expected '}' before end of string". |
| XPathTemplate.FormatLooksUpBeforeSpec | pybaseball/datasources/html_table_processor.py:20-21 | The argument is looked up before a nested field in the spec: `{a:{w}}` is a KeyError for `a`. |
| XPathTemplate.FormatRejectsOtherField | pybaseball/datasources/html_table_processor.py:20-21 | A replacement field naming a keyword other than `TABLE_XPATH` is a KeyError carrying exactly that name, unless its leading digits exceed a Py_ssize_t, which is "Too many decimal digits in format string". |
| XPathTemplate.FormatRejectsPositional | pybaseball/datasources/html_table_processor.py:20-21 | An empty or numeric field (`{}`, `{0}`) is an IndexError for positional index 0 or that number, since no positional argument is given; a number beyond a Py_ssize_t is the too-many-digits ValueError. |
| XPathTemplate.FormatRejectsLoneClose | pybaseball/datasources/html_table_processor.py:20-21 | A `}` that is not doubled, after brace-free text, is the ValueError "Single '}' encountered in format string". |
| HtmlTableProcessor.NewProcessor | pybaseball/datasources/html_table_processor.py:16-22 | Construction succeeds if and only if both templates format. A heading-template error is the one reported. The root URL, table class and cell expression are stored unchanged. |
| HtmlTableProcessor.NewProcessorResolvesTemplates | pybaseball/datasources/html_table_processor.py:16-22 | The stored heading and row expressions are the templates with every `{TABLE_XPATH}` replaced by the locator. |
| HtmlTableProcessor.UsedHeadings | pybaseball/datasources/html_table_processor.py:33-36 | With a mapper, the typing headings are the mapper's output. Without one, they are the raw headings. |
| HtmlTableProcessor.MapperIsSoleSourceOfHeadings | pybaseball/datasources/html_table_processor.py:33-36 | Two mappers that agree on the raw headings give the same table. Without a row id, the table's headings are the mapper's output. |
| HtmlTableProcessor.TypeRow | pybaseball/datasources/html_table_processor.py:39-43 | A row types if and only if it has no more cells than there are headings; otherwise the error is `IndexError: list index out of range`, as indexing past the last heading raises. Cell i becomes `try_parse(cell i, heading i, known_percentages)`, in order. |
| HtmlTableProcessor.TypeRows | pybaseball/datasources/html_table_processor.py:38-45 | Typing succeeds if and only if every row fits the headings. There is one typed row per row, cell by cell as in TypeRow. |
| HtmlTableProcessor.IdColumnName | pybaseball/datasources/html_table_processor.py:48 | The id column is named by `row_id_name` when that is present and non-empty, and `id` otherwise. |
| HtmlTableProcessor.AddRowIds | pybaseball/datasources/html_table_processor.py:47-50 | Without a row-id function the table is unchanged. With one, exactly one heading is added in front and each row gets its node's id in front; the row count and the other cells are unchanged. |
| HtmlTableProcessor.FromElement | pybaseball/datasources/html_table_processor.py:30-54 | Extraction fails (`IndexError: list index out of range`) if and only if some row node has more cells than there are headings. Otherwise there is one row per row node, in document order, typed as above. When a row-id function is given, the id column comes first. |
| HtmlTableProcessor.FromHtml | pybaseball/datasources/html_table_processor.py:56-67 | Markup that parses to no tree gives None, which is passed on as the element; its first XPath query (line 33) then fails, so the result is `AttributeError: 'NoneType' object has no attribute 'xpath'`. Otherwise extraction runs on the root with the same options. |
| HtmlTableProcessor.CheckStatus | pybaseball/datasources/html_table_processor.py:75-78 | There is an error if and only if the status is above 399. It is an HTTP error whose message contains the full URL and the status code. |
| HtmlTableProcessor.FromUrl | pybaseball/datasources/html_table_processor.py:69-86 | The request goes to `root_url + url`. A status above 399 fails with that message before any parsing. Any other status extracts from the response body. |
| LeaderboardApi.CloseFrom | pybaseball/datasources/html_table_processor.py:107 | For a `>` at i, finds the nearest `<` that closes a match. No nearer candidate matches, and none is found when no match exists. |
| LeaderboardApi.OpenFrom | pybaseball/datasources/html_table_processor.py:107 | Finds the leftmost `>` that starts a match, with its shortest completion. No earlier `>` starts a match. |
| LeaderboardApi.ExtractTextFromHtml | pybaseball/datasources/html_table_processor.py:104-110 | A non-string is unchanged, and so is a string with no match. A changed string is the group of some match. |
| LeaderboardApi.ExtractTextIsLeftmostShortest | pybaseball/datasources/html_table_processor.py:104-110 | For the leftmost `>` that starts a match, with its shortest completion, the result is exactly the text between them. That text is non-empty and contains no newline. |
| LeaderboardApi.ExtractTextOfAnchor | pybaseball/datasources/html_table_processor.py:104-110 | Text wrapped as `<a>text</a>` comes back as the bare text. |
| LeaderboardApi.WithMinorLeagueLevel | pybaseball/datasources/html_table_processor.py:112-113 | For a minor-league request, `level` becomes 0 and every other parameter is unchanged. Otherwise the parameters are unchanged. |
| LeaderboardApi.MinorLeagueOverridesLevel | pybaseball/datasources/html_table_processor.py:112-115 | In a minor-league request, any `level` the caller passed has no effect on the result. |
| LeaderboardApi.CleanColumn | pybaseball/datasources/html_table_processor.py:126 | A column that no record carries is a key error. Otherwise each present value is cleaned, and every key and every other value stays. |
| LeaderboardApi.CleanNameAndTeam | pybaseball/datasources/html_table_processor.py:126-127 | The result fails if and only if no record has `Name` or no record has `Team`. The error is `KeyError('Name')` when no record has `Name`, since that line runs first, and `KeyError('Team')` otherwise. Otherwise both are cleaned, and keys and other values stay. |
| LeaderboardApi.CleanNameAndTeamOneRow | pybaseball/datasources/html_table_processor.py:126-127 | A single record with both keys gets its name cleaned and then its team. |
| LeaderboardApi.CleanNameAndTeamStripsAnchors | pybaseball/datasources/html_table_processor.py:102-127 | A record whose name and team are wrapped in anchor tags yields the bare name and team. |
| LeaderboardApi.FromApi | pybaseball/datasources/html_table_processor.py:101-130 | On the rows of the response to the (possibly extended) parameters: the result fails if and only if a `Name` or `Team` column is missing, with `KeyError('Name')` when `Name` is missing and `KeyError('Team')` otherwise. Otherwise there is one record per row with the same keys, `Name` and `Team` cleaned, and every other value unchanged. |
| PlayerGameLogs.ParseLogType | pybaseball/player_game_logs.py:57-58 | Exactly `batting`, `pitching` and `fielding` are accepted, each as itself. Anything else is a ValueError with the source's message. |
| PlayerGameLogs.ParseLogTypeName | pybaseball/player_game_logs.py:57-58 | Every log type is accepted under its own name. |
| PlayerGameLogs.TParamIsInitial | pybaseball/player_game_logs.py:12-17 | The `t` letter is the initial of the log type (b, p, f), and it tells the three types apart. |
| PlayerGameLogs.GameLogUrlQuery | pybaseball/player_game_logs.py:9-18 | The URL is the game-log page followed by a query. Split at `&`, the query is the player id, the `t` letter and the season, in that order. |
| PlayerGameLogs.TableId | pybaseball/player_game_logs.py:20 | The table id is the log type's name followed by `_gamelogs`. |
| PlayerGameLogs.TableIdNamesLogType | pybaseball/player_game_logs.py:20 | The log type can be read back from the table id, so different log types look for different tables. |
| PlayerGameLogs.GetTable | pybaseball/player_game_logs.py:18-24 | The page for the built URL is searched for the table id. A missing table is an error with the source's message; otherwise the table read from it is returned. |
| Tables.DropColumns | pybaseball/player_game_logs.py:29 | The drop fails if and only if some named label is missing, and the KeyError names a missing label. Otherwise exactly the other columns remain, in order, in every row, and no dropped label is left. |
| Tables.DropColumnsKeepsOtherLabels | pybaseball/player_game_logs.py:41 | Every label not dropped survives, and no label appears that was not there before. |
| Tables.RenameColumns | pybaseball/player_game_logs.py:34 | Mapped labels take their image and unmapped labels stay. Positions and cells are unchanged. |
| PlayerGameLogs.RenameGameLogHeadings | pybaseball/player_game_logs.py:30-34 | Only `Gtm` and `Unnamed: 5` change. A `Game` (`Home`) column afterwards was `Gtm` or `Game` (`Unnamed: 5` or `Home`) before. |
| Tables.DropLastRow | pybaseball/player_game_logs.py:35 | Exactly the last row goes, and an empty table stays empty. |
| Tables.MapColumn | pybaseball/player_game_logs.py:36 | Every cell under the label is rewritten, and every other cell stays. |
| PlayerGameLogs.DeriveHome | pybaseball/player_game_logs.py:36 | A missing `Home` column is a KeyError. Otherwise every `Home` cell becomes true exactly when it was empty, and every other cell stays. |
| PlayerGameLogs.GameMask | pybaseball/player_game_logs.py:37 | The mask exists if and only if every `Game` value is text, since a NaN in the mask is refused. Entry k is true exactly when row k's value starts with a digit. |
| Tables.UniqueColumn | pybaseball/player_game_logs.py:37-38 | A column is found if and only if the label occurs exactly once, and then no other position carries it. |
| PlayerGameLogs.StrColumn | pybaseball/player_game_logs.py:37-38 | `.str` is available if and only if the label names exactly one column. An absent label is a KeyError. |
| Tables.FilterRows | pybaseball/player_game_logs.py:37 | Exactly the flagged rows are kept, in their original order. Headings and rectangularity are unchanged. |
| PlayerGameLogs.KeepGames | pybaseball/player_game_logs.py:37 | Without a `Game` column it is a KeyError. It succeeds if and only if `Game` names one column and every value there is text; with one such column and a missing value the error is the NaN mask error. On success the kept rows are exactly those whose `Game` text starts with a digit, in original order, and the headings are unchanged. |
| TextUtil.Split | pybaseball/player_game_logs.py:38 | There is at least one part and no part contains the separator. There is a single part if and only if the separator is absent. |
| TextUtil.JoinSplit | pybaseball/player_game_logs.py:38 | Joining the parts of a split gives back the string. |
| TextUtil.SplitJoin | pybaseball/player_game_logs.py:38 | Splitting a join of separator-free parts gives back the parts. |
| PlayerGameLogs.SplitRsltParts | pybaseball/player_game_logs.py:38-40 | `W/L` is the text before the first comma. `Score` is the text between the first and second comma, or absent when there is no comma. |
| PlayerGameLogs.SplitRsltRoundTrip | pybaseball/player_game_logs.py:38-40 | Splitting `wl + "," + score` gives back `wl` and `score`. |
| Tables.SetColumn | pybaseball/player_game_logs.py:39-40 | Every column with the label gets the new values, or one is appended when none has it. Every other cell is unchanged. |
| PlayerGameLogs.AddResultColumns | pybaseball/player_game_logs.py:39-40 | `W/L` and `Score` exist afterwards. The old labels keep their positions, and only `W/L` or `Score` is appended; when neither existed, both are appended in that order. |
| PlayerGameLogs.AddResultColumnsCells | pybaseball/player_game_logs.py:39-40 | Every `W/L` and `Score` cell is the split of that row's `Rslt`, and every other old cell is unchanged. |
| PlayerGameLogs.SplitResults | pybaseball/player_game_logs.py:38-41 | A missing `Rslt` is a KeyError. Success needs a non-empty table with a comma in some `Rslt`; otherwise the split has no column 0 or no column 1. Afterwards `Rslt`, `Game` and `Gcar` are gone, `W/L` and `Score` exist, and each of their cells is the split of its row's `Rslt`. |
| PlayerGameLogs.SplitResultsOutcome | pybaseball/player_game_logs.py:37-41 | The split succeeds if and only if `Rslt` names one column, there is a row, some `Rslt` has a comma, and `Game` and `Gcar` exist. Each failure has its own error, in the order the code meets them: the `.str` lookup, column 0, column 1, then `Game`, then `Gcar`. |
| PlayerGameLogs.SplitResultsKeepsOtherColumns | pybaseball/player_game_logs.py:39-41 | Every column left other than `W/L` and `Score` is an input column with the same label and the same cells. |
| PlayerGameLogs.SplitResultsLabels | pybaseball/player_game_logs.py:41 | After the drop, the labels are the old ones minus the spent ones, plus `W/L` and `Score`. |
| PlayerGameLogs.SplitResultsCells | pybaseball/player_game_logs.py:38-41 | After the drop, each `W/L` and `Score` cell is still the split of its row's `Rslt`. |
| PlayerGameLogs.Prepare | pybaseball/player_game_logs.py:29-36 | A missing `Rk` is a KeyError. It succeeds if and only if `Rk` exists and so does `Unnamed: 5` or `Home`; otherwise the error is a KeyError for `Home`. Afterwards the columns are the input's other than `Rk`, in order, relabelled (`Gtm` to `Game`, `Unnamed: 5` to `Home`). The last row is gone. Each `Home` cell is true exactly when the input cell was empty, and every other cell is the input's. |
| PlayerGameLogs.Postprocess | pybaseball/player_game_logs.py:28-44 | A missing `Rk` is a KeyError. On success there are strictly fewer rows than the input, `Home`, `W/L` and `Score` exist, and `Rk`, `Rslt`, `Game` and `Gcar` do not. |
| Tables.UniqueLabelsCount | pybaseball/player_game_logs.py:37-38 | A label of a table with distinct labels occurs exactly once, so `.str` is available on it. |
| Tables.DropColumnsRecords | pybaseball/player_game_logs.py:29 | With distinct labels, dropping columns keeps the labels distinct, and each row read by label loses exactly the dropped labels. |
| PlayerGameLogs.PrepareThenSplit | pybaseball/player_game_logs.py:28-44 | Row by row, the first four steps followed by the split and drop give the one-row reference `PostRecord`. |
| PlayerGameLogs.GameRows | pybaseball/player_game_logs.py:35-37 | The kept positions increase, all lie above the totals row, and a row above the totals row is kept exactly when its `Gtm` is text starting with a digit. |
| PlayerGameLogs.PrepareRecords | pybaseball/player_game_logs.py:29-36 | On a well-formed log the first four steps succeed, keep labels distinct, leave exactly `Game`, `Home` and the input labels other than `Rk`, `Gtm` and `Unnamed: 5`, and row k read by label is `PrepareRecord` of input row k. |
| PlayerGameLogs.GamesKept | pybaseball/player_game_logs.py:37 | After the first four steps, the filter fails exactly when some `Gtm` above the totals row is not text, and otherwise keeps the rows `GameRows` names, each still `PrepareRecord` of its input row. |
| PlayerGameLogs.SplitResultsRecords | pybaseball/player_game_logs.py:38-41 | On distinct labels with `Rslt`, `Game` and `Gcar` present and a comma in some `Rslt`, the split succeeds and each row read by label is `SplitRecord` of its input row. |
| PlayerGameLogs.ScoresKept | pybaseball/player_game_logs.py:38-41 | After the filter, the split fails exactly when no kept row's `Rslt` has a comma, and otherwise each row read by label is `PostRecord` of its input row. |
| PlayerGameLogs.PostprocessGameLog | pybaseball/player_game_logs.py:28-44 | On a well-formed log, postprocess succeeds if and only if every `Gtm` above the totals row is text and some kept row's `Rslt` has a comma. Then the rows are the `GameRows` input rows in order, and each reads, label by label, as `PostRecord` of its input row: `Rk`, `Gtm`, `Unnamed: 5`, `Rslt` and `Gcar` gone, `Home` the emptiness of `Unnamed: 5`, `W/L` and `Score` the parts of `Rslt`, every other label kept. |
| PlayerGameLogs.GameLogs | pybaseball/player_game_logs.py:47-61 | An invalid log type is a ValueError. A page without the expected table is the missing-table error. Otherwise the result is `postprocess` of the table read from the page. |
| PlayerGameLogs.UnknownLogTypeFetchesNothing | pybaseball/player_game_logs.py:57-59 | For an invalid log type the result is the same whatever the network would return, so nothing is fetched. |
| TextUtil.IntToString | pybaseball/player_game_logs.py:18 | A negative season renders as `-` followed by the digits of its magnitude. |
| TextUtil.NatToStringInjective | pybaseball/player_game_logs.py:18 | Different seasons render differently. |

## Left out

- HTTP (`requests`, `BRefSession`) and the `@cache.df_cache()` decorator: these are I/O and persistence. The model takes the response as a parameter.
- HTML parsing, XPath evaluation, BeautifulSoup's table lookup and `pd.read_html`: these are foreign libraries, taken as parameters.
- `postprocessing.try_parse`: this file is not part of this model, so it is an uninterpreted parameter.
- `DataFrame` construction: padding short rows and checking the width are pandas behaviour. The model stops at headings plus typed rows.
- `pd.to_numeric(errors="ignore")` and `reset_index(drop=True)`: the model has no numeric cells and no row index, and row order is what it keeps.
- `read_html`'s type inference: a scraped cell is modelled as text or missing.
- JSON decoding: the payload is a parameter. The branch where `data` is not a list only prints a message and leaves the frame unassigned; it is not modelled.
- The mutation of the caller's `query_params` dict by the minor-league branch: the model returns the new parameters instead.
- `get_tabular_data_from_options`: it passes its arguments unchanged to `get_tabular_data_from_url`, which is modelled as `FromUrl`.
- `pybaseball/pitching_leaders.py`: it only re-exports functions from a file that is not part of this model.
- XPathTemplate.Format: on `TABLE_XPATH` itself, the `!r` and `!a` conversions, a non-empty format spec (nested fields in it included) and attribute or index access are reported as `Unmodelled` rather than formatted, since they need `repr`, `ascii`, the format mini-language or attribute lookup on a string. Non-ASCII decimal digits in a field name are not read as a number, and CPython's "Max string recursion exceeded" depth limit is not modelled, since it arises only in nested specs.
- LeaderboardApi.ExtractTextFromHtml: `.` in the regex is modelled as "any character but a newline", as in Python without flags.
- PlayerGameLogs.GameMask: `\d` is modelled as the ASCII digits `0`-`9`, whereas Python's `\d` also matches other Unicode decimal digits.
- LeaderboardApi.CleanColumn: a record without the column is left without the key, rather than receiving the NaN a data frame would hold there.
- Tables.DropColumns: the KeyError names the first missing label, where pandas lists all of them.
- HtmlTableProcessor.AddRowIds: `row_id_func` is called with the row node alone, as the code calls it, not with the two arguments its type annotation declares.
- PlayerGameLogs.GetTable: it takes a log type, so only the three valid kinds can reach it. Called directly with any other string, the source's `get_table` reads `t_param` before assigning it and raises UnboundLocalError; that path is not modelled.
- PlayerGameLogs.PostprocessGameLog: the end-to-end statement covers well-formed logs only: distinct labels, `Rk`, `Gtm`, `Unnamed: 5`, `Rslt` and `Gcar` present, and `Game`, `Home`, `W/L` and `Score` absent. Other tables are covered by the step-by-step contracts.
