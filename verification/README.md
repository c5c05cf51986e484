# Log collector model

A Dafny model of `log_collector.py`, a small agent that authenticates to a
FortiExtender cloud log API, polls one event stream, forwards every record it
has not forwarded before as a `key=value` line to a logger (syslog plus a
rotating file), and keeps the highest forwarded record `index` in the text
file `last_index.txt` so that a restart does not forward records again.

The model keeps the deterministic logic behind the HTTP and logging calls.
HTTP replies are inputs, and `json.dumps` is a function parameter. Forwarding
a record means appending its line to a sequence of sent lines.

| file | module | what it holds |
|---|---|---|
| `common.dfy` | `Common` | `Option`, `Result` and `Failure`, the exceptions the script raises and never catches |
| `json.dfy` | `Json` | decoded JSON values; a record is its fields in received order |
| `decimal.dfy` | `Decimal` | `str(int)` and the sign-plus-digits part of `int(text)`, with round trips both ways |
| `index_codec.dfy` | `IndexCodec` | `read_last_index` and `write_last_index`, plus `str.strip` |
| `normalizer.dfy` | `Normalizer` | the `key=value` line and where each field sits in it; a reader that recovers the fields when no key holds a space or `=` and no value text holds a space |
| `dedup.dfy` | `Dedup` | which entries of a page are forwarded, and the new watermark |
| `session.dfy` | `Session` | the access/refresh token pair and how a token reply replaces it |
| `collector.dfy` | `Collector` | `poll_logs` as a function and as a loop, one cycle of `main`, and runs of cycles |

Uncaught exceptions end the process, since `main` has no handler. The model
therefore reports them as a `failure` in the outcome of a poll, a cycle or
`Main`; it never invents a way to carry on. In particular a failed token
refresh ends the run. The code raises there and nothing catches it, so the
model follows the code rather than a log-and-continue policy. Records are
forwarded in page order, as the loop visits them, not sorted by index.

## Model

| member | source | states |
|---|---|---|
| `Decimal.NatToString` | log_collector.py:117 | `str` of a non-negative integer is a non-empty digit run with no superfluous leading zero |
| `Decimal.IntToString` | log_collector.py:117 | `str(n)` is canonical integer text and starts with `-` exactly when `n` is negative |
| `Decimal.ParseInt` | log_collector.py:111 | `int()` accepts exactly an optional sign followed by at least one digit; a negative result comes from a leading `-` |
| `Decimal.ParseIntToString` | log_collector.py:111-117 | parsing the text `str(n)` gives back `n`, for every integer |
| `Decimal.IntToStringOfParse` | log_collector.py:111-117 | every canonical text parses, and `str` of its value is the same text: canonical texts and integers correspond one to one |
| `IndexCodec.StripSurrounded` | log_collector.py:111 | `strip` removes exactly the whitespace around a text that begins and ends with something else |
| `IndexCodec.Strip` | log_collector.py:111 | `strip` returns a slice of the text with only whitespace on either side of it; the slice starts and ends with something else, and it is empty exactly when the text is all whitespace |
| `IndexCodec.ReadLastIndex` | log_collector.py:108-113 | reading never fails: a missing file or text that is not an integer after stripping gives 0; otherwise the integer the stripped text denotes |
| `IndexCodec.WriteLastIndex` | log_collector.py:115-117 | the written file holds canonical text, and reading it back yields the number written |
| `IndexCodec.ReadPaddedWrite` | log_collector.py:108-117 | a written file still reads back as the number written after whitespace is added around it |
| `IndexCodec.WriteOfRead` | log_collector.py:108-117 | a file holding canonical integer text is rewritten byte for byte when read and written again |
| `Normalizer.Render` | log_collector.py:100-102 | lists and dicts become `json.dumps` output; strings stay as they are; integers become their canonical text `str(i)`, which parses back to the integer; `None`, `True` and `False` become their Python names |
| `Normalizer.Normalize` | log_collector.py:98-103 | the line is empty exactly when the record has no fields; otherwise each field's `key=value` text sits at its offset, in field order, with one space between neighbours and nothing before the first or after the last, whatever the keys and values contain |
| `Normalizer.JoinLaid` | log_collector.py:103 | `sep.join(parts)` is exactly the parts laid end to end with one separator between neighbours |
| `Normalizer.SplitJoin` | log_collector.py:103 | splitting a space-joined list on the space gives the list back when no part holds a space |
| `Normalizer.NormalizeRoundTrip` | log_collector.py:99-103 | the line holds every field as `key=value`, in record order, none dropped or altered: reading it back yields each key with its value's text, whenever keys hold no space or `=` and values no space |
| `Normalizer.JoinLength` | log_collector.py:103 | the line's length is the sum of the pairs' lengths plus one for each separator between neighbours |
| `Normalizer.NewlineIff` | log_collector.py:99-103 | the line holds a newline exactly when some key or value text does; newlines are not escaped |
| `Dedup.Select` | log_collector.py:59-61 | every forwarded entry is on the page with an index strictly above the watermark, and every such entry is forwarded |
| `Dedup.SelectPositions` | log_collector.py:59-61 | exactly the entries above the watermark are forwarded, each once, in page order, whatever the page's ordering |
| `Dedup.SelectIdempotent` | log_collector.py:59-61 | filtering the forwarded entries again against the same watermark changes nothing |
| `Dedup.Advance` | log_collector.py:58-62 | the new watermark is the largest of the old one and the forwarded indices, so never below the old one |
| `Dedup.AdvanceMovesIff` | log_collector.py:62-65 | the watermark changes exactly when at least one entry is forwarded |
| `Dedup.ReplayForwardsNothing` | log_collector.py:53-65 | a page filtered against its own advanced watermark forwards nothing |
| `Session.Apply` | log_collector.py:45-49 | the reply handling both token calls share: a 200 reply with both fields replaces both tokens from it; a missing `access_token` raises KeyError naming it, a present `access_token` with a missing `refresh_token` raises KeyError naming that, another status raises the call's own exception, and the tokens stay as they were when anything raises |
| `Session.Authenticate` | log_collector.py:28-38 | on a 200 reply with both fields, both tokens are replaced from that one reply; otherwise it raises and both stay unchanged |
| `Session.Refresh` | log_collector.py:41-49 | the endpoint receives the current refresh token; on a 200 reply both tokens come from its reply, otherwise it raises and leaves both unchanged |
| `Collector.IndexOf` | log_collector.py:60 | an integer `index` is read as is; a missing one raises KeyError, and any other kind cannot be compared |
| `Collector.IndexedPrefix` | log_collector.py:59-60 | the loop gets through exactly the records before the first one without an integer index |
| `Collector.Poll` | log_collector.py:51-67 | a non-200 reply forwards nothing, writes nothing and raises nothing; a write happens only without an exception and only with a value above the watermark read |
| `Collector.PollPage` | log_collector.py:56-65 | on a 200 reply, a raised exception means no write, any write is above the watermark read, and no more lines are sent than records received |
| `Collector.ForwardPage` | log_collector.py:58-65 | the loop over the records, with its running maximum and the write guard, computes exactly `PollPage` |
| `Collector.Persist` | log_collector.py:64-65 | no write leaves the file as it was; after a write the file reads back as the value written |
| `Collector.PollLogs` | log_collector.py:51-67 | the record-by-record loop, with its early exit on a bad record, computes the same outcome as `Poll` |
| `Collector.PollForwardsExactlyNew` | log_collector.py:53-61 | the sent lines are the normalised records whose index exceeds the watermark read, each once, in page order, among the records before any bad one |
| `Collector.PollWatermark` | log_collector.py:58-65 | on a well-formed page the file is written exactly when some record is above the watermark, and then with the page's largest index |
| `Collector.PollReplayForwardsNothing` | log_collector.py:51-65 | on a well-formed page, polling the same page again after the first poll's write forwards and writes nothing |
| `Collector.PollRaiseResends` | log_collector.py:56-65 | a poll that raised on a bad record wrote nothing, so polling the same page again reads the same watermark and sends the lines before that record again: delivery is at least once |
| `Collector.Cycle` | log_collector.py:119-125 | one turn polls with the current access token and then refreshes; an exception from either ends the run; the watermark never decreases; sent lines are only appended |
| `Collector.Main` | log_collector.py:119-125 | a failed authentication ends the process before any poll, with nothing sent or written |
| `Collector.LoopMonotone` | log_collector.py:121-125 | over any run of cycles the watermark does not decrease and earlier sent lines stay |
| `Collector.LoopSplit` | log_collector.py:121-125 | running cycles in two batches is running the first batch and, unless it raised, continuing with the second: the loop stops at the first exception |
| `Collector.LoopTokensPaired` | log_collector.py:41-49 | after any run of cycles the tokens held are the starting pair, or both come from a granting reply (status 200, both fields present) that one cycle's refresh endpoint gave to the refresh token actually held when that cycle began |
| `Collector.WatermarkNonDecreasing` | log_collector.py:121-125 | along a run, the watermark after `i` cycles is at most the watermark after `j >= i` cycles |

## Left out

- HTTP: the URLs, headers, JSON request bodies and `requests` itself. Replies are inputs. The log and refresh endpoints are functions of the token the request carries. The text `Bearer <token>` is not built.
- Reply decoding: `response.json()` is taken as already decoded. A 200 log reply is modelled as the list under `payload.results`, or as absent, which raises KeyError. A body without `payload` and a payload without `results` both raise here as `MissingKey("results")`; Python names `payload` in the first case. Other shapes of that body are not modelled. An exception raised by the HTTP library is a single `ConnectionFailed`.
- `json.dumps` is the parameter `dumps`. Its separators and escaping are not fixed here.
- `setup_logger`, the syslog and rotating-file handlers and `logger.info`: forwarding a line means appending it to `sent`. Timestamps and formatter prefixes are not modelled.
- `load_dotenv`, the environment reads, the `print` calls and the authentication request payload are configuration and console output.
- `time.sleep(900)` and the endless loop: a run is a finite sequence of cycles.
- Numbers with a fraction part are not values of this model.
- Collector.IndexOf: treats a boolean `index` as not comparable. Python compares it as 0 or 1 and could persist the text `True`.
- Decimal.ParseInt: covers an optional sign followed by ASCII digits. Underscores between digits, non-ASCII digits and the 4300-digit limit of `int()` are not modelled.
- IndexCodec.IsSpace: knows the ASCII-range whitespace, NEL and no-break space. Other Unicode whitespace that `str.strip` removes is not covered.
- `read_last_index`: only a missing file and bad contents are handled. Other OS errors, which the code does not catch, are not modelled. A crash in the middle of `write_last_index` is not modelled.
- Json.Lookup: takes the first field with the key. A decoded Python dict never holds a key twice.
- The unused global `LAST_POLLED_TIMESTAMP` and the unused `datetime` import.
