# Gamersberg stock bot — a Dafny model of `check_stock`

`stock_bot.py` opens the Gamersberg "grow a garden" stock page in a headless
browser. It reads every `.seed-item` container on the page. For each one it
cleans the heading into a seed name and parses the quantity out of the stock
line. Then it e-mails a single alert listing the watched seeds that are in
stock. This project models that decision pipeline, and the guards in front of
the mailer, as pure Dafny functions, and proves what the pipeline promises:

- **Quantity** (`quantity.dfy`): the first match of `Stock:\s*(\d+)`, read as an
  integer, or 0 when nothing matches. It is modelled as a scan for the leftmost
  match with greedy `\s*` and `\d+`. That scan is proved equal to a declarative
  description of what `re.search` reports.
- **Names** (`names.dfy`): `replace(" Seed", "")`, as one left-to-right pass,
  followed by `strip()`. `strip()` removes Python's `str.isspace` characters
  (`text.dfy`).
- **Selection** (`selection.dfy`): an item qualifies when its cleaned name is one
  of `TARGET_SEEDS`, compared exactly and case-sensitively, and its quantity is
  positive. The qualifying items are kept in page order, with no deduplication.
- **Alert body** (`alert.dfy`): a fixed header plus one `- name: q available!`
  line per qualifying item, stripped as a whole. The subject is fixed. A decoder
  proves that the body lists exactly the selection.
- **Run** (`stockcheck.dfy`): the page is reduced to what the browser reports:
  - a failed launch;
  - a failed load, such as the 15-second wait for `.seed-item` timing out;
  - or, for each item, the two texts or the exception raised.

  `CheckStock` is the reference outcome: abandoned, nothing to report, or an
  alert. `RunCheck` is the loop as written, proved equal to it. It also records
  whether the browser was launched and closed. Exceptions are values here, so
  the `finally` on lines 108-110 closes it by construction. Any exception
  abandons the run and discards what was accumulated.
- **Mailer guards** (`notify.dfy`): `ENABLE_GMAIL_EMAIL` lower-cased must equal
  `"true"`, and it defaults to `"False"`. The sender, password and recipient
  must all be set and non-empty before anything is handed to SMTP.

The comment on line 11 of `stock_bot.py` calls the target search
case-insensitive. The code on line 92 compares names with `in`, which is exact.
The model follows the code. `Selection.CaseSensitiveMatch` shows that the
heading `"beanstalk Seed"` is never selected, whatever its stock.

This revision of `stock_bot.py` has no deduplication, no failure on an empty
page, no skipping of malformed items and no polling loop:

- There is no deduplication, either within a run or across runs, and no
  "already notified" set. An item listed twice on the page gives two lines
  (`Selection.NoDeduplication`), and every run starts from nothing.
- A page whose item list is empty is not treated as a failure. Such a page
  ends the run with nothing to report (`StockCheck.CheckStock` on `Loaded([])`).
  Note that the 15-second wait for `.seed-item` already turns a page with no
  items into a timeout.
- A malformed item is not skipped. Any exception while reading an item abandons
  the whole run (`StockCheck.ErrorDiscardsEarlierItems`). This includes
  `text_content()` returning `None`, which makes `replace` raise.
- There is no polling loop and no liveness endpoint. Each run checks the page
  once (lines 113-117).

## Model

| member | source | states |
|---|---|---|
| Text.Trim | stock_bot.py:86 | `strip()` leaves no whitespace at either end and never lengthens the string |
| Text.TrimSlice | stock_bot.py:86 | what `strip()` keeps is a contiguous slice of the input with only whitespace cut away on each side |
| Text.TrimUnique | stock_bot.py:86 | any split of a string into whitespace, a stripped core and whitespace is stripped to exactly that core |
| Text.NatToString | stock_bot.py:95 | the quantity is printed as a non-empty run of decimal digits without a leading zero unless it is 0 |
| Text.DecimalValueOfNatToString | stock_bot.py:90-95 | `int()` of the printed quantity gives the quantity back |
| Quantity.MatchAt | stock_bot.py:89 | trying the pattern at one position succeeds exactly when some match starts there, and then returns a match ending at a non-digit |
| Quantity.SearchFrom | stock_bot.py:89 | the scan returns the leftmost match at or after its start, with a maximal digit group, or none when no position matches |
| Quantity.SearchUnique | stock_bot.py:89 | `re.search` has a single answer: two leftmost matches with maximal digit groups coincide |
| Quantity.ParseQuantity | stock_bot.py:89-90 | the quantity is 0 when the pattern matches nowhere, and otherwise is the value of the digit group of the leftmost greedy match |
| Quantity.QuantityWithoutLabel | stock_bot.py:89-90 | a stock text in which `Stock:` never occurs parses to 0 rather than failing |
| Quantity.QuantityOfStockText | stock_bot.py:89-90 | a stock line `Stock:` plus any whitespace plus the digits of n parses to n |
| Names.RemoveSeed | stock_bot.py:86 | `replace` only deletes: the result is shorter by a multiple of the token's length |
| Names.RemoveSeedIdentity | stock_bot.py:86 | `replace` leaves a string unchanged exactly when the token does not occur in it |
| Names.RemoveSeedSplit | stock_bot.py:86 | deleting tokens distributes over a split placed just before an occurrence of the token |
| Names.RemoveSeedSinglePass | stock_bot.py:86 | one pass only: a token formed by a deletion survives (`" S Seedeed"` becomes `" Seed"`) |
| Names.CleanName | stock_bot.py:86 | the cleaned name has no surrounding whitespace and is no longer than the heading |
| Names.CleanHeading | stock_bot.py:85-86 | a heading `"<name> Seed"` cleans back to `name` whenever the name is stripped and free of the token |
| Selection.Select | stock_bot.py:78-96 | at most one entry per item, and every entry names a target and has positive stock |
| Selection.SelectSound | stock_bot.py:92-96 | every selected entry is the cleaned name and parsed quantity of a qualifying item of the page |
| Selection.SelectComplete | stock_bot.py:92-96 | every qualifying item of the page has its entry selected |
| Selection.SelectEmptyIff | stock_bot.py:92-98 | nothing is selected exactly when no item qualifies |
| Selection.SelectAppend | stock_bot.py:78 | items are handled one at a time in page order: the selection of a concatenation is the concatenation of the selections |
| Selection.SelectSnoc | stock_bot.py:92-96 | one more item adds its entry exactly when it qualifies |
| Selection.NoDeduplication | stock_bot.py:78-96 | an item that appears twice on the page contributes twice, so a qualifying one is listed twice |
| Selection.CaseSensitiveMatch | stock_bot.py:92 | the heading `"beanstalk Seed"`, which differs from the target `"Beanstalk"` only in letter case, is never selected, whatever its stock |
| AlertBody.Lines | stock_bot.py:95 | the appended lines are empty exactly when no entry was selected |
| AlertBody.Body | stock_bot.py:76-100 | the body has no surrounding whitespace, and for a non-empty selection `strip()` removes only the final line break of header plus lines |
| AlertBody.DecodeLineText | stock_bot.py:95 | each `- name: q available!` line reads back as its name and quantity, even when the name contains `": "` or digits |
| AlertBody.DecodeBodyOfBody | stock_bot.py:76-100 | the body of a non-empty selection reads back as exactly that selection, in order |
| AlertBody.BodyEnds | stock_bot.py:76-100 | the body starts with the header and ends with `" available!"` |
| Notify.SendEmailNotification | stock_bot.py:28-43 | nothing is sent when the switch is off or a credential is unset or empty; otherwise the message goes from the configured sender to the configured recipient with the given subject and body |
| Notify.EmailEnabledIff | stock_bot.py:25 | e-mail is on exactly for `"true"` in any mix of letter case |
| Notify.DisabledByDefault | stock_bot.py:25 | with the variable unset, or set to its default `"False"`, e-mail is off |
| StockCheck.CollectSpec | stock_bot.py:78-83 | reading the items succeeds exactly when every read does, gives the texts in page order, and otherwise reports the first failed read |
| StockCheck.CollectAppend | stock_bot.py:78-83 | reading is item by item: a successful prefix followed by more containers reads as their concatenation, or fails with their error |
| StockCheck.CheckStock | stock_bot.py:61-110 | a run is abandoned exactly when the page did not load or some item read failed; an alert carries the fixed subject and the body of the selection |
| StockCheck.CheckStockAlertIff | stock_bot.py:92-100 | a run alerts exactly when the page loaded, every item was read, and some item qualifies |
| StockCheck.RunCheck | stock_bot.py:61-110 | the loop as written, with its running body and found flag, computes the reference outcome of `CheckStock`; the browser flags record that `close` runs exactly when launch succeeded, which holds by construction because exceptions are values in this model |
| StockCheck.Dispatch | stock_bot.py:98-102 | the mailer is called only for an alert, with the alert's subject and body |
| StockCheck.EmailSubmittedIff | stock_bot.py:98-100 | an e-mail is submitted exactly when the page and all items were read, some item qualifies, e-mail is on and all three credentials are set |
| StockCheck.AlertListsSelection | stock_bot.py:95-100 | whenever a run alerts, its body lists exactly the selected items, in page order |
| StockCheck.ErrorDiscardsEarlierItems | stock_bot.py:104-107 | an error on any item abandons the run, whatever qualifying items were read before it |
| StockCheck.TimeoutSendsNothing | stock_bot.py:104-105 | when the wait for the items times out, the run is abandoned with that timeout and nothing reaches the mailer |
| StockCheck.OneTargetInStock | stock_bot.py:86-96 | a page with one target in stock and another at `Stock: 0` alerts about the first only |

## Left out

- Playwright: launching Chromium, `goto`, the 15000 ms wait and the locators are
  reduced to the `Page` and `ItemRead` values they yield. A timeout is one of the
  two `Fault`s.
- `async_playwright()` failing before the `try` on line 63 is not modelled. That
  exception escapes `check_stock` instead of being caught.
- SMTP: building the `EmailMessage`, connecting to `smtp.gmail.com:465`,
  logging in and sending. `SendEmailNotification` stops at the decision to
  submit. Errors raised by the send are caught and printed on lines 50-53, so
  they do not change the outcome of the run.
- Reading the environment, `WEBSITE_URL`, `print` output, and `asyncio.run`.
  The environment is the `Env` parameter.
- Deduplication across runs and any polling loop. This revision of
  `stock_bot.py` has neither: each run starts from nothing, and scheduling is
  left to an external cron job (lines 26 and 113-117).
- Quantity.ParseQuantity: `\d` is taken to be the ASCII digits. Python's `\d` on
  `str`, and `int()`, also accept other Unicode decimal digits.
- Quantity.ParseQuantity: Python's `int()` limit on the length of a digit string
  is not modelled. Since CPython 3.11 (and its security backports), `int()`
  raises `ValueError` for more than 4300 digits by default, leading zeros
  included, and line 106 then abandons the run. The model returns the value of
  any digit group instead, so it may alert where Python aborts. The limit depends
  on the interpreter version and on `sys.set_int_max_str_digits`.
- Notify.Lower: only ASCII capitals are lower-cased. Python's `lower()` also maps
  non-ASCII letters, but none of them lower-cases to a letter of `"true"`, so the
  switch decides the same way.
- AlertBody.DecodeBodyOfBody: the round trip is stated for names without a line
  break. A name containing one would make the body ambiguous. The cleaned names
  of selected items are target names, and none of those contains one.
- StockCheck.Collect: its own contract states only the length of the result.
  The full characterisation is `StockCheck.CollectSpec`.
