# Sterbox client, modelled in Dafny

`SterboxClient` (sterbox.py) is a bridge daemon. It polls a Sterbox
controller over HTTP, one section of variables per request, decodes the
back-tick separated answer positionally, and republishes the combined values
over MQTT once per interval. Along the way it keeps two kinds of state:
- a per-variable count of consecutive read failures, which drives its
  "attempt N of 3" and "skipping" log lines;
- a connection retry count, which bounds how often it rebuilds the HTTP
  session.

The Dafny modules follow that structure:

- `Options`: the `Option` type.
- `Text`: the Python string operations the client uses.
  - `str.strip` with and without an argument, with Python's `isspace`
    character set.
  - `str.split` and `str.join` on one character.
  - `str.replace` of one character, and the `in` substring test.
- `Decimal`: what `float(value)` and `int(float(value))` do on plain
  decimal literals.
  - A literal is an optional sign, digits and an optional point with
    digits, with digits on at least one side of the point.
  - Values are exact reals. `int(...)` truncates toward zero.
- `Decoder`: `_build_combined_query`, the counter initialisation of
  `__init__`, `_process_value` and `_parse_response`.
- `DecoderProperties`: properties that relate several decoder calls.
  - A decimal comma is the same as a decimal point.
  - How the counters evolve over a history of tokens.
  - The device's framing round-trips.
  - Decoding is purely positional.
- `Session`: `_authenticate`, `_reset_session` and `_check_connection`, and
  the end state of `_wait_for_authentication`.
  - HTTP outcomes are inputs.
  - The transport session is a generation number.
- `Poller`: `_query_section` and one iteration of the `while True` loop of
  `run`.
  - Every section is queried in order, and results are merged into the
    combined data.
  - The data is published when the interval has elapsed and it is non-empty.
  - The round ends with a pause.
  - Clock readings are parameters measured in integer ticks.
- `Scenarios`: worked examples on concrete tokens and responses.

## Model

| member | source | states |
|---|---|---|
| Decoder.BuildQueryPositional | sterbox.py:114-115 | The combined query is the concatenation of the fragments in declaration order: fragment `i` sits exactly at the offset given by the fragments before it, which is what lets the `i`th answer belong to variable `i` |
| Decoder.BuildQueryAppend | sterbox.py:114-115 | Joining fragments distributes over concatenating variable lists |
| Decoder.InitCounters | sterbox.py:32-36 | There is exactly one counter per variable of every section, and every counter starts at 0 |
| Decoder.DecodeToken | sterbox.py:152-172 | A token gives a value exactly when it is not the trimmed `er` sentinel and its comma-normalised text is a decimal literal. The value is the literal's truncated whole part when the fragment contains `@gcd`, and its exact value otherwise |
| Decoder.ProcessValue | sterbox.py:152-178 | Only the named variable's counter changes: it goes up by one on `er`, is reset to 0 by a value, and becomes 1 on a malformed token, whatever it was before. The returned value is the token's decoded value. A notice is given exactly when there is no value, and it is `Attempt(n)` up to 3 and `Skipping` after that |
| Decoder.DecodeAll | sterbox.py:188-192 | The decoding loop keeps the set of counter keys |
| Decoder.DecodeCounters | sterbox.py:188-192 | After a section is decoded, each variable's counter has moved according to its own positional token alone, and every counter outside the section is unchanged |
| Decoder.DecodeData | sterbox.py:188-192 | A variable is in the decoded mapping exactly when its positional token decodes, with that token's value, and no other key is |
| Decoder.Tokens | sterbox.py:181-182 | The response splits into one more token than there are back-ticks left after the outer back-ticks are stripped |
| Decoder.ParseResponse | sterbox.py:180-194 | A token count that differs from the variable count gives `None` with no counter touched. Otherwise the result is `None` exactly when no token decodes, and otherwise it is a non-empty mapping of exactly the variables whose tokens decode. Each counter follows its own token, and counters of other sections are unchanged |
| Text.StripSpec | sterbox.py:181 | `strip(chars)` returns the infix left after every leading and trailing character from the set is removed, and that infix neither starts nor ends with one of them |
| Text.StripLeftSpec | sterbox.py:153 | Left stripping removes exactly the longest prefix made of the given characters |
| Text.StripRightSpec | sterbox.py:153 | Right stripping removes exactly the longest suffix made of the given characters |
| Text.Split | sterbox.py:182 | Splitting gives at least one part, no part contains the separator, and joining the parts with the separator restores the text |
| Text.SplitJoin | sterbox.py:182 | Splitting a join of separator-free parts gives the parts back |
| Text.SplitCount | sterbox.py:182 | The number of parts is one more than the number of separators |
| Text.ReplaceSpec | sterbox.py:167 | Replacing a character keeps the length and changes exactly the positions that held it |
| Text.StripReplace | sterbox.py:153-167 | Replacing a character that is not stripped commutes with stripping |
| Decimal.Lex | sterbox.py:169-170 | A literal that is accepted is well formed and renders back to the exact text it was read from |
| Decimal.LexRender | sterbox.py:169-170 | Reading the text of any well-formed literal gives that literal back |
| Decimal.ParseReal | sterbox.py:170 | `float()` succeeds exactly on the texts the decimal grammar accepts |
| Decimal.FractionValue | sterbox.py:170 | The digits after the point contribute a value in [0, 1) |
| Decimal.Truncate | sterbox.py:169 | `int()` of a float truncates toward zero, for both non-negative and negative values |
| Decimal.TruncateIsWholePart | sterbox.py:169 | Truncating a literal's value gives its signed whole-number part, so `-12.7` becomes -12 |
| DecoderProperties.NormalizeKeepsSentinel | sterbox.py:159-167 | Comma normalisation neither creates nor destroys the `er` sentinel |
| DecoderProperties.CommaIsDecimalPoint | sterbox.py:153-170 | Two tokens that agree after comma normalisation decode to the same result, under any fragment |
| DecoderProperties.Replay | sterbox.py:152-178 | Successive `_process_value` calls for one variable yield one value and one notice per token, and keep the counter keys |
| DecoderProperties.SentinelsAccumulate | sterbox.py:155-165 | A run of `er` tokens raises the counter by the length of the run and yields no values. The `i`th notice is the one for count `c + i + 1`, so the notice becomes `Skipping` once the count passes 3 |
| DecoderProperties.MalformedNeverSkips | sterbox.py:155-178 | A run of malformed (non-sentinel, unparsable) tokens leaves the counter at 1 and every notice at `Attempt(1)`, because the counter is reset before parsing |
| DecoderProperties.ValueResetsHistory | sterbox.py:155-156 | After any history, one good value followed by one failure, whether an `er` sentinel or a malformed token, leaves the counter at 1 with notice `Attempt(1)` |
| DecoderProperties.EmptyFirstValueLost | sterbox.py:181-186 | An empty first value is lost in the framing: `strip('`')` removes its back-tick with the leading one, so two values come back as one token and the section fails the count check |
| DecoderProperties.TokensDecodeEncode | sterbox.py:181-182 | Values framed the way the device sends them (joined by back-ticks, with a back-tick at each end) come back from strip-and-split as sent. This holds when the values are back-tick free and the first and last are non-empty |
| DecoderProperties.PositionalCounters | sterbox.py:189-192 | Permuting the (variable, token) pairs of a section does not change the resulting counters |
| DecoderProperties.PositionalData | sterbox.py:189-192 | Permuting the (variable, token) pairs of a section does not change the decoded mapping |
| Session.Authenticate | sterbox.py:117-129 | Authentication succeeds exactly on HTTP 200. Success clears the retry count, and failure changes nothing |
| Session.ResetSession | sterbox.py:70-73 | A reset installs a new transport session and keeps the retry count |
| Session.CheckConnection | sterbox.py:75-93 | A 200 probe clears the count and succeeds. Below the maximum, the check counts an attempt, replaces the session and returns the re-authentication's result, which clears the count when it succeeds. At the maximum it fails with nothing changed. It never pushes the count past the maximum |
| Session.WaitForAuthentication | sterbox.py:131-137 | On return the retry count is clear and the session is the same |
| Session.PersistentFailureSaturates | sterbox.py:85-93 | While probes and re-authentications keep failing, the count after `k` checks is `min(count + k, max)`. The session is replaced once per counted attempt and not after that |
| Session.CheckRepeatedlyBounded | sterbox.py:75-93 | Any run of checks keeps the retry count within the maximum |
| Poller.Start | sterbox.py:32-44 | Before the first round the counters are exactly the variables of all sections, each at 0, the retry count is 0, and, as `run` sets them at lines 250-251, the combined data is empty and the last publish time is the start time |
| Poller.QuerySection | sterbox.py:210-236 | A result is returned only on HTTP 200, as the parsed response with its counters. A non-200 reply drops the data and leaves the link authenticated. A protocol or request fault runs the connection check. Any other fault changes nothing. Counters change only on 200, and the retry bound is kept |
| Poller.Merge | sterbox.py:260-261 | Merging a result adds its keys, takes its values for them, and keeps every other key's value |
| Poller.MergeAllKeys | sterbox.py:257-262 | After a round, a key is in the combined data exactly when it was there before or some section result carries it |
| Poller.MergeAllLatest | sterbox.py:257-262 | When several sections report a key, the last one queried wins |
| Poller.MergeAllUntouched | sterbox.py:257-262 | A key that no section reports keeps its earlier value |
| Poller.MergeAllAppend | sterbox.py:253-262 | Merging two runs of results one after the other equals merging their concatenation |
| Poller.PollSections | sterbox.py:257-266 | A round yields one result per section, keeps the counter keys and the last publish time, and keeps the retry bound |
| Poller.PollSectionsMerges | sterbox.py:257-262 | The combined data after the section loop is the previous data with the results merged in section order |
| Poller.Schedule | sterbox.py:257-266 | The sections are queried in their configured order. A positive `rest_delay` puts exactly one pause of that length between every two consecutive queries and none after the last. With a zero `rest_delay` there are no pauses at all |
| Poller.PublishStep | sterbox.py:268-275 | Data is published exactly when the interval has elapsed and the data is non-empty. Publishing clears the data and moves the publish time to now; otherwise nothing changes |
| Poller.Pause | sterbox.py:277-282 | The end-of-round pause is either `rest_delay` or the time left to the next publish, and it never exceeds either |
| Poller.Round | sterbox.py:253-282 | One loop iteration publishes exactly the merged data of the round when due, keeps every variable covered by a counter, keeps the retry bound, and pauses for the time left until the next publish, capped at `rest_delay` and never negative |
| Poller.RoundsAccumulate | sterbox.py:260-275 | Across two rounds that do not publish, the combined data is the merge of both rounds' results in order |
| Scenarios.DecimalCommaToken | sterbox.py:167-170 | `21,5` decodes to the float 21.5 under a plain fragment |
| Scenarios.DecimalPointToken | sterbox.py:167-170 | `21.5` decodes to the float 21.5 under a plain fragment |
| Scenarios.IntegerMarkerToken | sterbox.py:168-169 | `12.7` decodes to the integer 12 under a fragment containing `@gcd` |
| Scenarios.NegativeIntegerMarkerToken | sterbox.py:168-169 | `-12.7` decodes to the integer -12 under a fragment containing `@gcd` |
| Scenarios.PaddedSentinelToken | sterbox.py:153-165 | ` er ` is the sentinel once trimmed, and decodes to nothing |
| Scenarios.TwoTokens | sterbox.py:181-182 | `` `21,3`er` `` splits into the tokens `21,3` and `er` |
| Scenarios.PartialSection | sterbox.py:180-194 | Section `t1 = q1`, `t2 = q2@gcd` receives the answer `` `21,3`er` ``. The result maps only `t1`, to 21.3. `t1`'s counter stays 0 and `t2`'s becomes 1 |
| Scenarios.MismatchedResponse | sterbox.py:184-186 | A three-token answer to a two-variable section gives `None` with the counters unchanged |

## Left out

- Configuration loading (YAML), the MQTT client and its connect/disconnect callbacks, JSON serialisation, logging and `print`.
  - These are I/O.
  - The log lines of `_process_value` are kept only as the `Notice` value.
- `_setup_session` and its urllib3 `Retry` adapter.
  - These are transport internals.
  - Their effect is part of the HTTP outcome passed in as `Http`.
- `time.time` and `time.sleep`.
  - Clock readings are parameters, measured in integer ticks.
  - Sleeps are returned as durations (`Pause`, `Rest` steps).
  - `auth_retry_delay` and `connection_retry_delay` only set sleep lengths, so they are not modelled.
- URL strings. The base URL, the `u7.cgi?q0=` authentication URL and the password are not modelled. A request is identified by its section.
- `_connect_mqtt` and the `while True` of `run`.
  - These loops do not terminate.
  - One iteration of `run` is `Poller.Round`, and `Poller.RoundsAccumulate` chains two rounds.
- Session.WaitForAuthentication: modelled by the state it returns in. Its loop only exits after an `_authenticate` that succeeded, and it may never return.
- Decimal.ParseReal: covers plain decimal literals only. Python's `float()` also accepts the following, which are not modelled:
  - exponents, `inf`/`nan`, underscores and non-ASCII digits;
  - binary floating-point rounding.
  - `int(float("inf"))` raises `OverflowError`; that case is not modelled either.
  - On such tokens the model answers "malformed", where Python would yield a value or reach the generic `except Exception` of `_query_section`.
- A negative `rest_delay`: the configured `rest_delay` is a natural number here. A negative value would make `time.sleep` raise, and that path is not modelled.
- Poller.QuerySection: the `isinstance` test of `_handle_connection_error` is always true on the paths that call it, so it is not modelled. Its boolean result is discarded by `_query_section` in both branches.
- Where the documented behaviour and the code differ, the model follows the code:
  - An exhausted connection check does not fall back to `_wait_for_authentication`; the section simply yields `None`.
  - The connection retry count is incremented only while it is below the maximum.
  - A malformed number never reaches the "skipping" notice (`DecoderProperties.MalformedNeverSkips`); only repeated `er` sentinels do.
- Concurrency: the client is single-threaded apart from the MQTT network loop, which is outside this model.
