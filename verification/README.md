# QCryptoWidget core in Dafny

QCryptoWidget is a desktop tray widget. It polls a quote API for a watch list
of coin codes, shows one price row per coin with an up/down/flat arrow for the
24-hour or 7-day change, and raises tray alarms when user-defined thresholds
are crossed. This project models the decision logic of that widget as pure
Dafny functions over immutable data, and proves properties about it:

- the alarm evaluator (`check_alarms`);
- the display state of a price row: the arrow classification and the price
  labels produced by the `,.4f` format, split at the point, with the fraction
  stripped (`update_price_display`);
- the watch-list mutators `add_coin` and `remove_coin`;
- the alarm dialog's list editing (`add_or_update_alarm`, `remove_alarm`);
- the session steps: `set_update_interval`, `on_change_interval_selected`, and
  the state step of `update_prices`;
- the pure part of `get_current_prices`: request parameters, status check and
  the decoding of the JSON response into per-coin records.

Modules follow the program's structure:

| file | module | contents |
|---|---|---|
| options.dfy | `Options` | `Option` |
| strings.dfy | `Strings` | the `str` operations the widget relies on: decimal numerals, thousands grouping, `rstrip`, ASCII `upper`, substring `in`, `",".join` and `split`, `split()[0]`, `int` on digit strings |
| sequences.dfy | `Sequences` | subsequences, `list.index`, `list.remove` |
| types.dfy | `Types` | price records, alarm kinds and their combo texts, alarms, the session state |
| coin_api.dfy | `CoinApi` | `get_current_prices` over a parsed JSON value |
| alarms.dfy | `AlarmRules` | `check_alarms` |
| display.dfy | `PriceDisplay` | arrow, colour and price labels of each row |
| watch_list.dfy | `WatchList` | `add_coin`, `remove_coin` |
| alarm_dialog.dfy | `AlarmDialog` | `add_or_update_alarm`, `remove_alarm` |
| widget.dfy | `Widget` | refresh period, change interval, refresh cycle, session invariant |

Python floats are modelled as Dafny `real`. Every I/O boundary becomes a
parameter:

- the HTTP response is `Option<Json>`, with `None` for a request that raised;
- the text and `ok` flag returned by the input dialog are parameters;
- the result of `float(threshold_text)` is `Option<real>`;
- the selected rows of the alarm list are a parameter.

Three behaviours of the code are worth stating plainly, because a reader
might expect otherwise:

- Fired alarms come out in alarm-list order: `check_alarms` walks
  `self.alarms` (src/widget/ui/widget.py:500), whatever the order of the watch
  list.
- A price of 1234.5 shows its fraction as ".5". The code strips only trailing
  zeros and then a bare point (`PriceDisplay.FractionExampleHalf`).
- A status-zero response whose entries lack `quote`, `USD` or `price` raises a
  `KeyError` that nothing catches. The model therefore requires a well-formed
  response (`CoinApi.WellFormedResponse`).

## Model

| member | source | states |
|---|---|---|
| AlarmRules.Triggered | src/widget/ui/widget.py:505-509 | the rule of each type: strict comparisons of the price or the 24-hour change; the decrease rule compares with `-abs(threshold)`, so it fires only on a falling change; an unrecognised type never fires |
| AlarmRules.Fires | src/widget/ui/widget.py:501-509 | an alarm fires only when its coin has a quote and its type is one of the four, and then exactly when the rule of its type holds |
| AlarmRules.FiredAlarms | src/widget/ui/widget.py:499-510 | an alarm is reported exactly when it is in the list, its coin has a quote and its rule holds; the reported alarms keep the list's order; none has an unrecognised type or an unquoted coin |
| AlarmRules.FiredAlarmsAppend | src/widget/ui/widget.py:500-510 | alarms are judged one by one: evaluating two halves and concatenating the results equals evaluating the whole list |
| AlarmRules.PriceAlarmsAreStrict | src/widget/ui/widget.py:506-508 | "Price above" fires iff the price is strictly above the threshold, "Price below" iff strictly below, "% increase" iff the 24-hour change strictly exceeds it; the price rules never fire at equality |
| AlarmRules.DecreaseIgnoresThresholdSign | src/widget/ui/widget.py:509 | the decrease rule fires iff the 24-hour change is below both `-t` and `t`, so thresholds `t` and `-t` behave the same |
| AlarmRules.FiredAlarmsIgnoreWeeklyChange | src/widget/ui/widget.py:502-503 | two snapshots that agree on prices and 24-hour changes fire the same alarms: the 7-day change and the selected interval play no part |
| AlarmRules.AlarmsWithoutQuotesStaySilent | src/widget/ui/widget.py:501 | alarms on coins without a quote never fire |
| AlarmRules.WorkedExample | src/widget/ui/widget.py:499-510 | BTC at 70000 with a 3% rise fires "above 65000" and not "increase 5" |
| AlarmRules.BoundaryExamples | src/widget/ui/widget.py:506-509 | "above 100" fires at 101, not at 100 or 99; "decrease 5" and "decrease -5" fire at -6, not at -5 |
| Types.ParseKind | src/widget/ui/widget.py:98 | the four combo texts map to the four rules; any other text is `Unknown` and is kept |
| Types.KindTextOfParse | src/widget/ui/widget.py:160 | storing the parsed kind gives back the exact type text |
| Types.ParseOfKindText | src/widget/ui/widget.py:506-509 | parsing the stored text of a kind gives back the kind |
| PriceDisplay.SelectedChange | src/widget/ui/widget.py:360 | the change shown is the 24-hour or the 7-day change of the quote, as the interval selects |
| PriceDisplay.Arrow | src/widget/ui/widget.py:362-369 | the glyph of each direction: a filled triangle up or down, a dot when flat |
| PriceDisplay.Colour | src/widget/ui/widget.py:362-369 | the colour of each direction: green up, orange-red down, light grey flat |
| PriceDisplay.Classify | src/widget/ui/widget.py:362-369 | up iff the change is positive, down iff negative, flat iff exactly zero |
| PriceDisplay.ClassifyNegation | src/widget/ui/widget.py:364-369 | negating the change swaps up and down; flat only for zero |
| PriceDisplay.StyleShowsDirection | src/widget/ui/widget.py:362-369 | the arrow and the colour each tell the three directions apart |
| PriceDisplay.FormatFraction | src/widget/ui/widget.py:379-380 | the stripped fraction is empty or a point and one to four digits not ending in zero; it reads back as the ten-thousandths it came from; it is empty iff there are none |
| PriceDisplay.FormatFractionCorrect | src/widget/ui/widget.py:376-380 | the same facts, proved for the `rstrip('0').rstrip('.')` chain over the four-digit fraction |
| PriceDisplay.IntegerTextShape | src/widget/ui/widget.py:375-377 | the integer label is the comma-grouped numeral, after a minus sign exactly for negative prices |
| PriceDisplay.FormatScaled | src/widget/ui/widget.py:375-380 | the two labels are well formed, carry the sign exactly when negative, read back as the given number of ten-thousandths, and the integer label is the whole units' numeral without leading zeros, comma-grouped |
| PriceDisplay.RoundToTenThousandths | src/widget/ui/widget.py:375 | the magnitude is rounded to the nearest ten-thousandth |
| PriceDisplay.FormatPrice | src/widget/ui/widget.py:375-380 | the labels are well formed and read back within half a ten-thousandth of the price; the minus sign appears exactly for a negative price (so -0.00001 shows "-0"); the integer label is a comma-grouped numeral without leading zeros |
| PriceDisplay.IntegerTextExample | src/widget/ui/widget.py:375-377 | 1234 whole units show as "1,234", negative as "-1,234" |
| PriceDisplay.FractionExampleHalf | src/widget/ui/widget.py:380 | .5000 shows as ".5" |
| PriceDisplay.FractionExampleCents | src/widget/ui/widget.py:380 | .1230 shows as ".123" |
| PriceDisplay.DescribeCoin | src/widget/ui/widget.py:356-392 | a row carries the coin and its slug; its arrow is up iff the selected change is positive, down iff negative, flat iff zero; its price labels are well formed, read back within half a ten-thousandth of the price, carry a minus sign exactly for a negative price, and group a numeral without leading zeros |
| PriceDisplay.QuotedCoins | src/widget/ui/widget.py:354-355 | exactly the watched coins with a quote, in watch-list order, each as often as it is watched |
| PriceDisplay.DisplayRows | src/widget/ui/widget.py:354-401 | one row per occurrence of a watched coin with a quote, in watch-list order, each described from its own quote |
| PriceDisplay.IntervalSwitchKeepsPrices | src/widget/ui/widget.py:360 | switching the interval changes only the arrows: same number of rows, same coins, labels and slugs |
| CoinApi.QuoteRequest | src/widget/api/coin_api.py:13-15 | no request is made iff the list is empty; a request always asks for USD quotes |
| CoinApi.QuoteSymbolListsCodes | src/widget/api/coin_api.py:15 | splitting the `symbol` parameter at commas gives back the codes when no code contains a comma |
| CoinApi.IsZero | src/widget/api/coin_api.py:21 | the error codes that compare equal to zero: the number zero and `false` |
| CoinApi.WellFormedResponse | src/widget/api/coin_api.py:21-36 | the fields the decoder reads without raising: the status and its error code; then the data object and each requested entry's quote, or the error message |
| CoinApi.NumberOr | src/widget/api/coin_api.py:33-34 | the field's number when present, the default otherwise |
| CoinApi.RecordOf | src/widget/api/coin_api.py:28-36 | a record takes the price, both changes and a string slug from the entry, with 0, 0 and "" for the missing optional fields |
| CoinApi.RecordOfDefaults | src/widget/api/coin_api.py:33-35 | an entry with only a price gives zero changes and an empty slug |
| CoinApi.RecordOfCoinJson | src/widget/api/coin_api.py:28-36 | decoding a full entry gives back the record it was built from |
| CoinApi.DecodeQuotes | src/widget/api/coin_api.py:25-37 | the result has exactly the requested codes that the response carries, each decoded from its own entry |
| CoinApi.GetCurrentPrices | src/widget/api/coin_api.py:9-40 | an empty map for no codes; `None` for a failed request; otherwise a map iff the error code is zero, holding exactly the requested codes the data object carries, each decoded from its own entry |
| CoinApi.DataJson | src/widget/api/coin_api.py:26-36 | a data object built from quotes has the same keys, and each entry is well formed and decodes to its quote |
| CoinApi.GetCurrentPricesOfResponse | src/widget/api/coin_api.py:25-37 | round trip: fetching from a server that knows some quotes yields exactly the known quotes of the requested codes |
| CoinApi.ErrorStatusFails | src/widget/api/coin_api.py:21-23 | a non-zero error code yields `None` whatever else the response holds |
| WatchList.AddCoin | src/widget/ui/widget.py:433-443 | the upper-cased code is appended iff the dialog was accepted with text, the code has three to five characters and it is not watched yet; otherwise the list is unchanged, and the status names the reason: cancelled exactly when the dialog was cancelled or empty, invalid length, or duplicate |
| WatchList.AddCoinKeepsNoDuplicates | src/widget/ui/widget.py:440-443 | adding keeps a duplicate-free watch list duplicate-free |
| WatchList.AddCoinIdempotent | src/widget/ui/widget.py:440-442 | adding the same text twice is rejected the second time as a duplicate, leaving the list as after the first |
| WatchList.AddCoinIgnoresCase | src/widget/ui/widget.py:436-442 | a code already watched in upper case is refused in any case |
| WatchList.AlarmsNotFor | src/widget/ui/widget.py:458 | exactly the alarms on other coins, each as often as before, in their original order |
| WatchList.RemoveCoin | src/widget/ui/widget.py:447-458 | removal happens iff the dialog was accepted and the upper-cased code is watched; then its first occurrence leaves the list, its quote leaves the cache with other quotes kept, every alarm on it is dropped and the others keep their number of copies and their order; otherwise nothing changes, and the status is cancelled exactly when the dialog was cancelled or empty |
| WatchList.RemoveCoinLeavesNoTrace | src/widget/ui/widget.py:454-458 | on a duplicate-free list the removed code is gone from list, cache and alarms, and the list stays duplicate-free |
| WatchList.AddThenRemove | src/widget/ui/widget.py:443-454 | removing a coin right after adding it restores the watch list |
| AlarmDialog.AddOrUpdateAlarm | src/widget/ui/widget.py:147-166 | an empty or unparsable threshold leaves the list unchanged; otherwise the selected row is replaced by the entered alarm with all other rows kept, or the alarm is appended when no row is selected |
| AlarmDialog.UpdateIdempotent | src/widget/ui/widget.py:162-164 | updating a row twice with the same input equals updating it once |
| AlarmDialog.Survivors | src/widget/ui/widget.py:174-176 | the surviving indices are in range, unselected and strictly increasing |
| AlarmDialog.SurvivorsComplete | src/widget/ui/widget.py:174-176 | no unselected index is lost |
| AlarmDialog.RemoveAlarm | src/widget/ui/widget.py:169-176 | with nothing selected the list is kept; otherwise deleting the selected rows from the highest index down leaves exactly the unselected alarms in their original order |
| AlarmDialog.SurvivorsOfNothing | src/widget/ui/widget.py:171-173 | with nothing selected every index survives |
| AlarmDialog.AppendThenRemove | src/widget/ui/widget.py:166-176 | deleting the row just appended restores the list |
| Widget.InitialSession | src/widget/ui/widget.py:201-212 | start-up holds the stored coins and alarms, no quotes, the daily change, and the period the first "Refresh" item names |
| Widget.RefreshMillis | src/widget/ui/widget.py:424-431 | a period is derived only from a text that mentions "min" or "hour"; any other text leaves the timer alone |
| Widget.RefreshMillisUnits | src/widget/ui/widget.py:426-431 | "N min" gives N minutes and "N hour" N hours, in milliseconds |
| Widget.RefreshChoicesMillis | src/widget/ui/widget.py:257 | the three combo items give 300000, 900000 and 3600000 ms |
| Widget.SetUpdateInterval | src/widget/ui/widget.py:424-431 | only the timer period changes, and only to the period the text names |
| Widget.SelectChangeInterval | src/widget/ui/widget.py:415-420 | "24h" in the text selects the daily change, else "7d" the weekly one, else the choice stays |
| Widget.ChangeChoices | src/widget/ui/widget.py:264 | the two combo items select the two intervals |
| Widget.OnChangeIntervalSelected | src/widget/ui/widget.py:415-422 | only the interval changes; the redrawn rows keep coins, labels and slugs, and each arrow follows the newly selected change |
| Widget.UpdatePrices | src/widget/ui/widget.py:405-413 | on failure the session and the drawn panel are kept and the error shown; on success the cache is replaced wholesale, the panel is redrawn with exactly the rows `DisplayRows` gives for the new quotes (watch-list order, each from its own quote), and the fired alarms are those `FiredAlarms` selects |
| Widget.RefreshCycle | src/widget/ui/widget.py:405-411 | a refresh changes only the quote cache, and only with watched or already cached coins |
| Widget.RefreshFromServer | src/widget/ui/widget.py:407-409 | a refresh against a server that knows some quotes caches exactly the known quotes of the watched coins |
| Widget.RefreshFailureKeepsSession | src/widget/ui/widget.py:408-413 | a failed request keeps the session and the drawn panel, fires nothing, and reports the error |
| Widget.EmptyWatchListRefresh | src/widget/ui/widget.py:405-411 | with no watched coins the cache empties, the panel is redrawn empty and no alarm fires |
| Widget.InitialConsistent | src/widget/ui/widget.py:201-205 | the start-up state, with an empty cache, satisfies the session invariant |
| Widget.RefreshKeepsConsistent | src/widget/ui/widget.py:407-409 | a refresh keeps every cached quote on a watched coin |
| Widget.AddKeepsConsistent | src/widget/ui/widget.py:440-443 | adding a coin keeps the invariant |
| Widget.RemoveKeepsConsistent | src/widget/ui/widget.py:454-455 | removing a coin keeps the invariant: its quote goes with it |
| Widget.SettingsKeepConsistent | src/widget/ui/widget.py:415-431 | choosing an interval or a refresh period keeps the invariant |
| Strings.GroupThousandsCorrect | src/widget/ui/widget.py:375 | comma grouping is well formed and deleting the commas gives the digits back |
| Strings.DecimalString | src/widget/ui/widget.py:375 | the numeral has no leading zero (zero itself is "0") and reads back as the number |
| Strings.RStrip | src/widget/ui/widget.py:380 | the result is the longest prefix not ending in the character, and only that character was removed |
| Strings.Upper | src/widget/ui/widget.py:436 | same length; each lower-case ASCII letter becomes its capital; every other character unchanged |
| Strings.Join | src/widget/api/coin_api.py:15 | the comma-joined symbol list; `Strings.SplitJoin` is its inverse |
| Strings.Contains | src/widget/ui/widget.py:417-429 | Python's substring test `p in s`: `p` starts at some position of `s` |
| Strings.SplitJoin | src/widget/api/coin_api.py:15 | splitting a comma-joined list gives the parts back when no part contains a comma |
| Strings.FirstToken | src/widget/ui/widget.py:427 | the first token of `split()`: none exactly for a blank text, otherwise the whitespace-free word that starts after the leading blanks |
| Strings.FirstTokenOfWord | src/widget/ui/widget.py:427 | the first token of "word rest" is the word |
| Strings.ParseNat | src/widget/ui/widget.py:427 | a number is read iff the token is a non-empty string of digits, and it is the number those digits denote |
| Strings.ParseNatOfDecimal | src/widget/ui/widget.py:427 | reading a numeral back gives the number it was written from |
| Sequences.RemoveFirstNoDuplicates | src/widget/ui/widget.py:454 | `list.remove` on a duplicate-free list removes the element and nothing else |
| Sequences.RemoveFirstAppended | src/widget/ui/widget.py:443-454 | removing an element just appended restores the list |

## Left out

- The Qt window and everything it draws: dragging, tray icon and menu, the About box, style sheets, and `load_alarms_to_list`, `populate_form_from_selection`, `clear_form` and `browse_sound_file`. They do not change the alarm list; the selection and form fields they set are the parameters of `AlarmDialog.AddOrUpdateAlarm` and `AlarmDialog.RemoveAlarm`.
- `trigger_alarm_alert`: the tray message and the sound are I/O. The model stops at the list of alarms that fire.
- `open_coin_url`: browser I/O. The row keeps the slug it would open.
- `open_alarm_dialog`: it only adopts the edited copy when the dialog is accepted.
- Persistence (`coin_db.py`, `alarm_db.py`), configuration loading (`config.py`), `main.py`, `get_chart_data` and the HTTP call itself.
- `add_coin` and `remove_coin` save and redraw after their state change. That follow-up is a separate `Widget.RefreshCycle` step, or a redraw with `PriceDisplay.DisplayRows`.
- Malformed responses: their `KeyError` is excluded by `CoinApi.WellFormedResponse`, and a JSON `null` where a number is expected is not modelled.
- CoinApi.RecordOf: a `slug` that is present but not a string is kept as "". Python keeps whatever value is there; `open_coin_url` treats a falsy one as missing, as the model does, but would put a truthy non-string into the URL.
- The display's `.get(f'percent_change_{interval}', 0)` default is never taken. Every record comes from the decoder, which fills in both changes.
- NaN and infinities are not modelled, because thresholds and prices are reals.
- PriceDisplay.RoundToTenThousandths: ties round up, whereas Python rounds the exact binary value of the float half-to-even, so ties can differ in the last digit. Floats are modelled as exact reals.
- WatchList.AddCoin: `str.upper` is modelled on ASCII letters only, so other letters are not upper-cased.
- Strings.ParseNat: accepts only plain digits. Python's `int` also accepts surrounding blanks, a sign and underscores, and raises otherwise; the model leaves the timer unchanged where `int` would raise.
- AlarmDialog.AddOrUpdateAlarm: the dialog's list allows a single selection, so `selected` is one optional index; the threshold parse is a parameter.
