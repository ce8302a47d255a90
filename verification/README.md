# Kuangyuan gas integration: a Dafny model of its string processing

The Kuangyuan gas integration for Home Assistant polls a utility's web page for a
household's gas account. This project models the deterministic part of it and
proves what it does:

- **the row scraper** `_parse_html_data`. It finds every
  `<tr><td>label</td><td>value</td></tr>` row of the page with one
  case-insensitive regular expression. It stores each value, stripped of
  surrounding whitespace, under its label with whitespace and colons deleted.
  A later row overwrites an earlier one with the same key.
- **the four extractors** (`_process_data` of the balance, usage, status and
  update-time sensors). Each walks a fixed, ordered list of synonymous labels over
  the scraped dictionary.
  - Balance and usage report the first run of digits and points of the value they
    find.
  - Status and update time report the value itself.
- **the sensor state update** of `async_update`. A reading replaces the sensor's
  value and makes it available. A missing reading, a failed fetch or a non-200
  response only clears `available`, and the old value is kept.
- **`validate_input`** of the configuration flow. It builds `full_cookie` from the
  user's cookie, two fixed session cookies and the phone number, and returns the
  entry title.

Modules, one per part of the program:

| module | file | contents |
|---|---|---|
| `Wrappers` | wrappers.dfy | `Option`, `Result` |
| `Text` | text.dfy | character classes, label cleaning, `strip()`, the `[\d.]+` search |
| `HtmlRows` | html_rows.dfy | the row pattern, `findall`, the dictionary |
| `Extractors` | extractors.dfy | synonym lists and the four `_process_data` loops |
| `Sensor` | sensor.dfy | sensor state, one poll, runs of polls |
| `ConfigFlow` | config_flow.dfy | `full_cookie` and `validate_input` |
| `Scenarios` | scenarios.dfy | worked examples on concrete pages and dictionaries |

The regular expression is modelled in two ways.

- **Declaratively**, as ghost definitions:
  - `RowAt(s, p, w)` says the pattern matches at `p` with the group boundaries `w`;
  - `MatchAt(s, p)` is the row the pattern yields at `p`;
  - `Matches(s)` is the `findall` loop over those outcomes: take a match and
    resume at its end, or move on by one character.
- **Operationally**, as executable methods: a greedy left-to-right scanner
  (`ScanRow`, `FindAll`, `ParseHtml`).

The methods are proved equal to the declarative definitions. This is sound because
the pattern leaves the regex engine no choice: `[^>]*` must stop at the first
`>`, `[^<]+` at the first `<`, and `\s*` before a `<`. `RowAtUnique` proves it.

Three behaviours of the code shape the model:

- A balance or usage synonym whose value has no digit or point is passed over,
  and the next synonym is tried (sensor.py:149-156). The reading is missing only
  when no synonym yields a run. `Extractors.NumericFieldFirstRun` and
  `Scenarios.BalanceFromSecondSynonym` state this.
- `validate_input` raises `KeyError` when "phone" or "cookie" is absent, and
  "phone" is read first (config_flow.py:29-30). `ConfigFlow.ValidateInput`
  returns that as a `Failure`.
- Each of the four sensors runs its own `async_update` and its own fetch
  (sensor.py:42-49, 67-74). `Sensor.FailedFetchAllUnavailable` states what happens
  when the same failed outcome reaches all four.

## Model

| member | source | states |
|---|---|---|
| HtmlRows.RowAt | custom_components/kuangyuan_gas/sensor.py:110 | reference definition of the row pattern matching at a position, with the boundaries of both groups; `<tr>` without attributes, `<td…>` with any, non-empty `<`-free cell texts, case-insensitive tags |
| HtmlRows.MatchAt | custom_components/kuangyuan_gas/sensor.py:110 | the row the pattern yields when tried at a position: it starts there, is non-empty and lies inside the page |
| HtmlRows.Matches | custom_components/kuangyuan_gas/sensor.py:112 | reference definition of `findall`: try the pattern at each position from the left, and after a match resume at its end |
| HtmlRows.Scraped | custom_components/kuangyuan_gas/sensor.py:112-116 | reference definition of the page's dictionary: each matched row's cleaned label assigned its stripped value, in document order |
| Text.IsSpace | custom_components/kuangyuan_gas/sensor.py:110 | reference definition of whitespace: Python's `str.isspace()` set, which is what `\s` matches in a `str` pattern and what `strip()` removes |
| Text.CleanLabel | custom_components/kuangyuan_gas/sensor.py:114 | a cleaned label holds no whitespace, `:` or `：` and is no longer than the label |
| Text.CleanLabelCounts | custom_components/kuangyuan_gas/sensor.py:114 | cleaning deletes exactly the whitespace and colons: every other character keeps its number of occurrences |
| Text.CleanLabelAppend | custom_components/kuangyuan_gas/sensor.py:114 | cleaning acts character by character, so the characters that remain keep their order |
| Text.CleanLabelFixpoint | custom_components/kuangyuan_gas/sensor.py:114 | a label is unchanged by cleaning if and only if it holds none of those characters |
| Text.CleanLabelIdempotent | custom_components/kuangyuan_gas/sensor.py:114 | cleaning a cleaned label changes nothing |
| Text.Strip | custom_components/kuangyuan_gas/sensor.py:115 | `strip()` returns a slice with only whitespace on either side of it, which neither begins nor ends with whitespace |
| Text.StripUnique | custom_components/kuangyuan_gas/sensor.py:115 | any slice with those two properties is what `strip()` returns |
| Text.StripIdempotent | custom_components/kuangyuan_gas/sensor.py:115 | stripping a stripped value changes nothing |
| Text.FirstNumber | custom_components/kuangyuan_gas/sensor.py:153 | the `[\d.]+` search fails if and only if the value has no digit or point; otherwise it captures a leftmost maximal run |
| Text.FirstNumberUnique | custom_components/kuangyuan_gas/sensor.py:194 | the leftmost maximal run of digits and points is the one captured |
| Text.FirstNumberChars | custom_components/kuangyuan_gas/sensor.py:153 | the captured run is non-empty and made only of digits and points |
| HtmlRows.RowAtUnique | custom_components/kuangyuan_gas/sensor.py:110 | the row pattern matches at a position in at most one way, so its groups are determined |
| HtmlRows.MatchAtRow | custom_components/kuangyuan_gas/sensor.py:110 | any match of the pattern at a position yields the groups the engine reports there |
| HtmlRows.SkipSpaces | custom_components/kuangyuan_gas/sensor.py:110 | `\s*` consumes the longest run of whitespace |
| HtmlRows.SkipUntil | custom_components/kuangyuan_gas/sensor.py:110 | `[^>]*` and `[^<]*` stop at the first `>` or `<` respectively |
| HtmlRows.ScanCell | custom_components/kuangyuan_gas/sensor.py:110 | a cell `<td…>text</td>` is recognised exactly when one is there: the tag may carry attributes, and the text is non-empty and free of `<` |
| HtmlRows.ScanRow | custom_components/kuangyuan_gas/sensor.py:110 | the greedy scanner succeeds at a position exactly when the pattern matches there, with the same groups |
| HtmlRows.WalkFound | custom_components/kuangyuan_gas/sensor.py:112 | every row the search loop reports is the match found at its own start |
| HtmlRows.WalkOrdered | custom_components/kuangyuan_gas/sensor.py:112 | the search loop reports rows in text order, without overlap |
| HtmlRows.WalkCovers | custom_components/kuangyuan_gas/sensor.py:112 | the search loop passes over no position where the pattern matches |
| HtmlRows.AttemptsAt | custom_components/kuangyuan_gas/sensor.py:112 | the table the search walks holds, at each position, the outcome of the pattern there |
| HtmlRows.MatchesSound | custom_components/kuangyuan_gas/sensor.py:110-112 | every row `findall` reports is a match of the pattern |
| HtmlRows.MatchesOrdered | custom_components/kuangyuan_gas/sensor.py:112 | `findall` reports rows in document order and they do not overlap |
| HtmlRows.MatchesCover | custom_components/kuangyuan_gas/sensor.py:112 | each position where the pattern matches starts or lies inside a reported row |
| HtmlRows.MatchesEmpty | custom_components/kuangyuan_gas/sensor.py:110-112 | `findall` returns nothing if and only if no table row matches anywhere |
| HtmlRows.FindAll | custom_components/kuangyuan_gas/sensor.py:112 | the scanner's loop returns exactly the rows `findall` reports |
| HtmlRows.Assign | custom_components/kuangyuan_gas/sensor.py:113-116 | reference definition of the assignment loop: the pairs assigned into an empty dictionary in order, a later one overwriting an earlier one with the same key |
| HtmlRows.AssignKeys | custom_components/kuangyuan_gas/sensor.py:113-116 | the keys of a dictionary built by assignments are exactly the assigned keys |
| HtmlRows.AssignEntries | custom_components/kuangyuan_gas/sensor.py:113-116 | every stored entry is one of the assigned pairs |
| HtmlRows.AssignLastWins | custom_components/kuangyuan_gas/sensor.py:116 | a key holds the value of the last assignment to it |
| HtmlRows.ScrapedKeys | custom_components/kuangyuan_gas/sensor.py:112-116 | the keys of the page's dictionary are exactly the cleaned labels of its matched rows |
| HtmlRows.ScrapedLastWins | custom_components/kuangyuan_gas/sensor.py:112-116 | of rows whose labels clean to one key, the last in the document supplies the value |
| HtmlRows.ScrapedClean | custom_components/kuangyuan_gas/sensor.py:114-115 | no key holds whitespace or a colon, and no stored value has surrounding whitespace |
| HtmlRows.ScrapedEmpty | custom_components/kuangyuan_gas/sensor.py:106-120 | the dictionary is empty if and only if no table row matches; parsing never fails |
| HtmlRows.ParseHtml | custom_components/kuangyuan_gas/sensor.py:104-120 | `_parse_html_data` returns the dictionary of cleaned labels to stripped values of the rows `findall` reports, later rows overwriting earlier ones |
| Extractors.Attempt | custom_components/kuangyuan_gas/sensor.py:150-156 | one pass of the synonym loop concludes only when its synonym is present, and never with "not found" |
| Extractors.Pick | custom_components/kuangyuan_gas/sensor.py:149-156 | whatever the synonym loop concludes is the outcome of one synonym's pass |
| Extractors.Extract | custom_components/kuangyuan_gas/sensor.py:149-164 | `_process_data` finds nothing if and only if no synonym's pass concludes; otherwise it ends as one synonym's pass does |
| Extractors.IsFloatLiteral | custom_components/kuangyuan_gas/sensor.py:155 | reference definition of the runs of digits and points `float` accepts: at least one digit and at most one point |
| Extractors.FloatLiteralGrammar | custom_components/kuangyuan_gas/sensor.py:196 | on runs of digits and points, that test is exactly Python's decimal-literal grammar: digits, digits with a fraction, or a bare fraction |
| Extractors.BalanceOrder | custom_components/kuangyuan_gas/sensor.py:146-156 | the balance sensor consults 余额, 当前余额, 账户余额 in that order, numerically, and the first whose pass concludes decides |
| Extractors.UsageOrder | custom_components/kuangyuan_gas/sensor.py:187-197 | the usage sensor consults 累积用气量, 累计用气量, 用气量 in that order, numerically, and the first whose pass concludes decides |
| Extractors.StatusOrder | custom_components/kuangyuan_gas/sensor.py:225-232 | the status sensor reports the value under 是否通气, else 通气状态, else 状态, verbatim, and nothing if none is present |
| Extractors.UpdateTimeOrder | custom_components/kuangyuan_gas/sensor.py:260-267 | the update-time sensor reports the value under 操作时间, else 更新时间, else 截至时间, else 时间, verbatim, and nothing if none is present |
| Extractors.PickStep | custom_components/kuangyuan_gas/sensor.py:149-156 | the loop consults its first synonym, and the rest only when that pass does not conclude |
| Extractors.PickThree | custom_components/kuangyuan_gas/sensor.py:149-156 | a loop over three synonyms consults them in list order |
| Extractors.PickDecided | custom_components/kuangyuan_gas/sensor.py:149-156 | the loop ends with the outcome of the first synonym whose pass concludes |
| Extractors.PickMissing | custom_components/kuangyuan_gas/sensor.py:158-164 | the loop finds nothing if and only if no synonym's pass concludes |
| Extractors.PickDecider | custom_components/kuangyuan_gas/sensor.py:190-197 | whenever the loop finds something, a deciding synonym supplied it |
| Extractors.TextFieldFirstPresent | custom_components/kuangyuan_gas/sensor.py:228-232 | status and update time take the value of their first synonym present in the dictionary, verbatim |
| Extractors.NumericFieldFirstRun | custom_components/kuangyuan_gas/sensor.py:149-156 | balance and usage take the first run of the first synonym that is present and holds a digit or point; `float` rejecting that run is the outcome |
| Extractors.NumericAttempt | custom_components/kuangyuan_gas/sensor.py:153-156 | a numeric pass that yields a reading took the value's first run, and `float` accepts it |
| Extractors.NumericReading | custom_components/kuangyuan_gas/sensor.py:187-197 | a numeric reading is the first run of digits and points of one synonym's value, with at least one digit and at most one point |
| Extractors.PickFrame | custom_components/kuangyuan_gas/sensor.py:149-151 | an extractor reads only the entries under its own synonyms |
| Extractors.ExtractEmpty | custom_components/kuangyuan_gas/sensor.py:158-164 | on the empty dictionary every extractor finds nothing |
| Sensor.Reading | custom_components/kuangyuan_gas/sensor.py:158-160 | a poll yields a reading if and only if the page was obtained and the extractor found a value (for balance and usage, a run `float` accepts), and the reading is the text the extractor found |
| Sensor.Apply | custom_components/kuangyuan_gas/sensor.py:67-74 | a poll makes the sensor available if and only if it yields a reading; the reading replaces the value, and otherwise the value is kept |
| Sensor.ApplyIdempotent | custom_components/kuangyuan_gas/sensor.py:158-164 | polling the same page twice leaves the sensor as one poll does |
| Sensor.LastReading | custom_components/kuangyuan_gas/sensor.py:67-74 | there is a latest reading if and only if some poll yielded one |
| Sensor.ReplaySnoc | custom_components/kuangyuan_gas/sensor.py:67-74 | a run of polls followed by one more is that poll applied to the run's result |
| Sensor.ReplayHistory | custom_components/kuangyuan_gas/sensor.py:67-74 | after any run of polls the sensor shows the most recent reading ever taken, or its earlier value if there was none, and it is available exactly when the latest poll gave a reading |
| Sensor.ReplayConsistent | custom_components/kuangyuan_gas/sensor.py:67-74 | any run of polls keeps "available only with a value" |
| Sensor.ReplayFromInitial | custom_components/kuangyuan_gas/sensor.py:59 | from construction on, a sensor is available only with a value, and it has a value exactly when some poll has given a reading |
| Sensor.Page | custom_components/kuangyuan_gas/sensor.py:97-102 | a page reaches the extractor if and only if the response has status 200, and its keys are clean and its values stripped |
| Sensor.Update | custom_components/kuangyuan_gas/sensor.py:67-74 | `async_update` applies the scraped page of a status-200 response; any other response or a transport error only clears `available` |
| Sensor.FailedFetchAllUnavailable | custom_components/kuangyuan_gas/sensor.py:99-101 | a non-200 response or a failed fetch leaves each of the four sensors unavailable, with its value unchanged |
| ConfigFlow.JoinCookies | custom_components/kuangyuan_gas/config_flow.py:33 | a joined cookie header begins with its first cookie |
| ConfigFlow.JoinFive | custom_components/kuangyuan_gas/config_flow.py:33 | five cookies joined with "; " are the five separated by "; " |
| ConfigFlow.FullCookie | custom_components/kuangyuan_gas/config_flow.py:33 | `full_cookie` is the user's cookie, the two fixed session cookies and the two phone-number cookies, in that order, joined with "; " |
| ConfigFlow.FullCookieShape | custom_components/kuangyuan_gas/config_flow.py:33 | `full_cookie` begins with the user's cookie verbatim, ends with the phone number, and is 111 characters longer than the cookie and twice the phone number |
| ConfigFlow.SplitFullCookie | custom_components/kuangyuan_gas/config_flow.py:33 | a cookie and a phone number recovered from a string rebuild that string |
| ConfigFlow.SplitFullCookieInverse | custom_components/kuangyuan_gas/config_flow.py:33 | given the length of the user's cookie, the cookie and phone number are read back from `full_cookie` |
| ConfigFlow.FullCookieAround | custom_components/kuangyuan_gas/config_flow.py:33 | `full_cookie` is the user's cookie, the fixed text up to the nickname cookie, the phone number, the user-name cookie's name and the phone number again |
| ConfigFlow.FullCookieNeedsLength | custom_components/kuangyuan_gas/config_flow.py:33 | `full_cookie` alone does not determine the pair: for every cookie, two different cookie and phone pairs build the same string, so the cookie's length is needed to split it |
| ConfigFlow.ValidateInput | custom_components/kuangyuan_gas/config_flow.py:26-35 | fails exactly when "phone" or "cookie" is missing, naming "phone" first; otherwise adds or replaces only "full_cookie", leaves every other entry as it was, and returns the title "燃气费查询" |
| ConfigFlow.ValidateInputDependsOnCookieAndPhone | custom_components/kuangyuan_gas/config_flow.py:29-33 | `full_cookie` depends on the cookie and phone number alone: the account number and other entries do not affect it |
| Scenarios.LabelVariants | custom_components/kuangyuan_gas/sensor.py:114 | "余额：", " 余额 " and "余 额:" all clean to "余额" |
| Scenarios.OneRowPage | custom_components/kuangyuan_gas/sensor.py:104-120 | the page `<tr><td>余额</td><td> 123.45 元</td></tr>` scrapes to {"余额": "123.45 元"} |
| Scenarios.BalanceFromSecondSynonym | custom_components/kuangyuan_gas/sensor.py:146-156 | with "余额" absent, the balance is read from "当前余额" |
| Scenarios.UsageWithoutDigits | custom_components/kuangyuan_gas/sensor.py:190-205 | a usage value without digits gives no reading, not zero |
| Scenarios.BalanceWithTwoPoints | custom_components/kuangyuan_gas/sensor.py:155 | a run "1.2.3" makes `float` raise, so the balance sensor goes unavailable and keeps its old value |
| Scenarios.ServerErrorKeepsValues | custom_components/kuangyuan_gas/sensor.py:99-101 | a response with any status other than 200 leaves a sensor unavailable with its old value, whatever the body |

## Left out

- The HTTP POST, its headers and payload, the 30-second timeout and the aiohttp
  session (sensor.py:76-102). These are network I/O. The outcome of a fetch is the
  parameter `Fetch`: a response with a status and a body, or a `TransportError`
  for any exception raised by the POST or while reading the body, including a
  decoding error or the timeout expiring after the response has begun.
- Conversion of the run to a `float` (sensor.py:155, 196). The model keeps the
  matched text as the sensor's value. It models only whether `float` raises,
  through `IsFloatLiteral`: a run of digits and points is accepted exactly when it
  has a digit and at most one point.
- Text.IsDigit: `\d` is modelled as the ASCII digits only. Python also matches
  other Unicode decimal digits, for example full-width ones, and a value written
  with them yields a run in Python but none in the model.
- Home Assistant metadata and setup: entity names, icons, units, unique ids,
  `DeviceInfo`, `SCAN_INTERVAL` and `async_setup_entry`. These are host
  registration only.
- The configuration form, its schema, and the abort for an account number that is
  already configured (config_flow.py:17-23, 38-68). These are handled by the
  framework.
- Logging calls throughout.
- The base `_process_data` that raises `NotImplementedError` (sensor.py:122-124).
  No sensor uses it.
- Dictionary values of types other than `str`. The scraped dictionary holds
  strings only, and so does the configuration dictionary as its schema declares.
- Sensors run concurrently. Each sensor's polls are modelled as a sequence of its
  own, and sensors share no state beyond the configuration.
