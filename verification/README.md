# Gas price checker: alert state machine and state file

This project models the core of `gas_price_checker.py`, a process that polls a
gas-price oracle (Etherscan's gas tracker) and sends a Telegram message when the
proposed gas price falls below a configured threshold. It models the revision
of `gas_price_checker.py` that has one threshold and an "already notified" flag
stored on disk as the text `True` or `False`.

- `FlagEncoding` models the flag's text encoding. `write_state` writes Python's
  `str(bool)`. `read_state` returns `content.strip() == 'True'`. A missing file
  is created holding `False` and reads as False. `strip` removes exactly the
  characters for which Python's `str.isspace` holds.
- `Decision` models one run of `check_gas_price_and_notify` as the pure function
  `Respond`. Its inputs are the threshold, the flag that was read, and the
  outcome of the HTTP request. Its result is the message sent (at most one) and
  the flag written (if any). A body whose keys are missing is `Crash`, because
  only `RequestException` is caught there. `Run` folds `Respond` over a
  sequence of request outcomes, which is what `main_loop` does. The lemmas state
  what the loop sends:
  - after a successful reading, the flag says whether that reading was below the
    threshold;
  - an alert fires exactly when a reading falls below the threshold after a
    successful reading that was not below it, or, before any successful
    reading, when the stored flag was False;
  - any two alerts have a reading at or above the threshold between them;
  - when every outcome is a successful reading below the threshold, the loop
    alerts at most once;
  - the loop crashes exactly when one of its outcomes is a malformed body.
- `Checker.GasPriceChecker` is the process state. It is a class whose field
  `stateFile` is the file, and its methods `ReadState`, `WriteState`, `Check`
  and `MainLoop` update that field. `Check` is proved equal to `Respond`, and
  `MainLoop` is proved equal to `Run`.

This model covers the single-threshold revision with a file-backed flag. The
alert is re-armed by one reading at or above the threshold. No message is ever
edited or deleted. An API failure sends an error message to the chat. The flag
lives in the state file.

## Model

| member | source | states |
|---|---|---|
| FlagEncoding.SkipSpace | gas_price_checker.py:60 | The left scan of `strip()`. It stops at or after its start. Everything it passes over is whitespace, and it stops at the end or at a character that is not whitespace. |
| FlagEncoding.DropSpace | gas_price_checker.py:60 | The right scan of `strip()`. It stops between its lower bound and its start. Everything it passes over is whitespace, and it stops at the lower bound or after a character that is not whitespace. |
| FlagEncoding.Strip | gas_price_checker.py:60 | `content.strip()`. The result is a contiguous piece of the input. Only whitespace is cut off on either side, and the result neither starts nor ends with whitespace. |
| FlagEncoding.ShowBool | gas_price_checker.py:68 | `str(state)` for a bool. The text written reads back as the value written. |
| FlagEncoding.ParseFlag | gas_price_checker.py:60 | `content.strip() == 'True'`. Content that reads as True contains the word `True` somewhere; `ParseFlagIff` states exactly which content reads as True. |
| FlagEncoding.FlagOf | gas_price_checker.py:50-62 | The flag `read_state` returns. A missing file reads exactly as a file holding `False`, and an existing file is parsed. |
| FlagEncoding.ReadBackWritten | gas_price_checker.py:59-68 | What `write_state(b)` stores (`str(b)`) reads back as `b`. |
| FlagEncoding.ReadCreatesFalse | gas_price_checker.py:51-56 | Creating a missing file with `False` does not change the flag: the next read returns what this read returned, which is False. |
| FlagEncoding.ParseFlagIff | gas_price_checker.py:59-62 | Content reads as True exactly when it is the word `True` with only whitespace around it. Any other content reads as False. Both directions are proved. |
| Decision.Respond | gas_price_checker.py:77-104 | One check. A crash happens exactly on a malformed body. After a successful reading, the new flag equals "the price is below the threshold", whatever the old flag was. A reading sends nothing or the alert. A failed request sends the exception text, and a status other than '1' with a message sends the API's message; both write no flag. |
| Decision.OnReading | gas_price_checker.py:89-98 | The branch on a successful reading. Afterwards the flag equals "the price is below the threshold", and the only message it can send is the alert. |
| Decision.DecisionTable | gas_price_checker.py:89-98 | The four cases of a reading. Below the threshold and not yet notified: send the alert and write True. At or above and notified: write False and send nothing. Below and already notified, or at or above and not notified: send nothing and write nothing. |
| Decision.Run | gas_price_checker.py:107-110 | The polling loop over a finite sequence of request outcomes. Every completed check contributes one entry (an optional message), and a crash ends the loop. |
| Decision.RunPrefix | gas_price_checker.py:107-110 | The loop's history only grows: the messages after the first n outcomes are a prefix of the messages after all of them. A crash is final. |
| Decision.FlagTracksLastReading | gas_price_checker.py:89-104 | Until a crash, the flag is "the last successful reading was below the threshold", or the starting flag if there was no successful reading. Failed requests leave it alone. |
| Decision.CrashesExactlyOnMalformed | gas_price_checker.py:77-110 | The loop crashes if and only if one of its outcomes is a malformed body (a missing key or an unparsable price). Failed requests and statuses other than '1' never end it. |
| Decision.AlertOnFallingEdge | gas_price_checker.py:88-92 | Check i sends the alert if and only if reading i is below the threshold and the flag before it was False. That flag comes from the last earlier reading, or from the start value if there was none. |
| Decision.AlertsSeparated | gas_price_checker.py:89-96 | Between any two alerts there is a successful reading at or above the threshold. |
| Decision.StaysBelowAlertsOnce | gas_price_checker.py:89-98 | If every outcome is a successful reading below the threshold, the first check alerts exactly when the starting flag is False, and every later check sends nothing. |
| Checker.GasPriceChecker.ReadState | gas_price_checker.py:50-62 | Returns the flag the file holds. A missing file becomes a file holding `False` and reads as False. An existing file is left as it is and parsed with `strip() == 'True'`. |
| Checker.GasPriceChecker.WriteState | gas_price_checker.py:66-68 | The file now holds `str(state)`. |
| Checker.GasPriceChecker.Check | gas_price_checker.py:71-104 | The check returns `Respond` applied to the flag the file held. The file is rewritten only when that decision writes. Otherwise it is unchanged, or newly `False` if it was missing, even when the request failed or the body was malformed. |
| Checker.GasPriceChecker.OnPrice | gas_price_checker.py:89-98 | The price branch does what `OnReading` decides. When the decision writes, the file holds `str` of the written value; otherwise the file is untouched. |
| Checker.GasPriceChecker.MainLoop | gas_price_checker.py:107-110 | Over the outcomes of successive ticks, the messages sent, the flag left on disk and whether the loop crashed are exactly those of `Run`, starting from the flag on disk. |

## Left out

- The HTTP request, `raise_for_status` and JSON decoding (gas_price_checker.py:79-83) are network I/O. Their outcome is an input: a decoded body or a `RequestException`. A JSON decoding failure is a `RequestException` in current `requests` releases (2.27 and later), so it is modelled as a failed request.
- A body that is not a JSON object, or a `status` that is not a string, is not modelled separately. A non-string status compares unequal to '1', so it behaves like a status other than '1'.
- `send_telegram_message` and the bot client (gas_price_checker.py:41-47) are a foreign library. A send is the message a check returns. Whether delivery succeeds is ignored, because a failure is only logged.
- Message wording and logging (gas_price_checker.py:72, 90, 96, 98, 101, 104) are presentation. A message keeps only the data it carries: threshold and price, the API's message, or the exception text.
- The `asyncio` event loop and `sleep` (gas_price_checker.py:110-114) are left out. `MainLoop` runs one check per tick over a finite sequence of outcomes. The real loop never ends unless an exception escapes.
- Parsing the environment variables and their fallbacks (gas_price_checker.py:14-38) is left out. The threshold is a given real number.
- Parsing `ProposeGasPrice` with `float()` (gas_price_checker.py:86) is left out. A price is a real number, and a value `float()` rejects is a missing price, which crashes the check.
- NaN and infinite prices or thresholds are not modelled, because prices are reals. With a NaN, both comparisons on lines 89 and 94 are false, so the check does nothing.
- File-system errors when opening or writing the state file, and text decoding of its content, are not modelled.
