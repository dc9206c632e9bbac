# Minecraft idle monitor — a Dafny model

This project models the core of an Azure Function (`function_app.py`). The function wakes every three minutes, checks a Minecraft server running in an Azure container, and stops the container once the server has been empty long enough. The model covers four parts:

- **Player-count prober** (`get_minecraft_player_count`). A port check, then three wire protocols in order:
  - the modern Server List Ping: a handshake and a status request over TCP, then a JSON payload read in chunks;
  - the legacy `FE 01` ping: a UTF-16BE kick packet;
  - the GameSpy4-style Query protocol over UDP: a challenge token, then a NUL-separated basic stat.
- **Log heuristics** over the container log tail:
  - `check_recent_player_activity`: activity and connection patterns in the most recent lines;
  - `get_current_players_from_logs`: a newest-first replay of join and leave lines into a set of names.
- **Tick decision** of `minecraft_monitor`. It counts protocol failures and empty checks, makes a final log check, and stops the container after two consecutive empty checks.
- **State persistence** in table storage (`get_monitoring_state`, `update_monitoring_state`).

The model uses these modules:

| module | covers |
|---|---|
| `Common` | Option, bytes, Python's `split` and `find`/`rfind`, `int()` on decimal text, ASCII text |
| `ModernStatus` | the modern handshake codec and the chunked response scan (`ReadStatusResponse` is the loop) |
| `LegacyStatus` | strict UTF-16BE and the kick-packet parse |
| `QueryStatus` | the query packets, challenge-token stripping and the basic-stat parse |
| `Prober` | the probe composition |
| `LogActivity` | both log heuristics; `CheckRecentActivity` and `EstimatePlayers` are the loops |
| `Monitor` | the tick; `MonitorState` is the state dictionary and `Tick` updates it in place |

Each method is proved equal to a specification function. The properties are then proved about those functions.

Things outside the process are inputs of the model:

- **TCP peer:** a function from the bytes written to what the successive `recv(1024)` calls return, each at most 1024 bytes (`Common.Received`). `None` means connecting failed. The end of the list means a receive timeout, and an empty chunk means the peer closed.
- **UDP peer:** a function from a datagram to what `recvfrom(1024)` returns: the reply cut to its first 1024 bytes.
- **JSON decoder:** a function from the sliced payload to `Unparseable` or the `players.online` value.
- **Log fetches:** a `LogFetch` value (failed, no content, or text).
- **Collaborators of a tick:** a `TickEnv` record holding whether the table read failed, the container info, the probe count, the log verdicts, the final check, the stop result and the current time. `Monitor.Observe` builds that record from the prober and the log heuristics.

The legacy parser takes its payload with Python slicing, which is clamped. So a kick packet that announces more characters than it carries still decodes whatever even-length text did arrive. Only an odd byte count or a broken surrogate fails.

## Model

| member | source | states |
|---|---|---|
| Common.Split | function_app.py:184 | `split` yields at least one part, no part holds the separator, and joining the parts gives the input back |
| Common.SplitJoin | function_app.py:244 | splitting separator-free parts joined by the separator gives back exactly those parts |
| Common.FirstIndex | function_app.py:113 | `find` returns -1 iff the item is absent, else the index of its first occurrence |
| Common.LastIndex | function_app.py:116 | `rfind` returns -1 iff the item is absent, else the index of its last occurrence |
| Common.ParseInt | function_app.py:187-188 | `int()` on text: a value needs at least one character, and text that starts with a digit gives a value of 0 or more |
| Common.ParseIntAccepts | function_app.py:187-188 | `int()` succeeds exactly on an optional sign followed by one or more of the ten digits; everything else is the ValueError path |
| Common.ParseIntExamples | function_app.py:187-188 | the empty text, a bare sign, letters, a trailing letter and a double sign are ValueErrors; `-12` reads as -12 |
| Common.ParseShowNat | function_app.py:187 | `int()` reads back the decimal text of every natural number |
| Common.ParseSignedShowNat | function_app.py:187 | `int()` reads back a decimal with a `-` sign as its negation, and with a `+` sign as itself |
| Common.ParseIntBytes | function_app.py:247-248 | `int(b.decode('utf-8'))`: a value needs a non-empty ASCII field |
| Common.ParseIntBytesAccepts | function_app.py:247-253 | a byte field gives a value exactly when it is ASCII decimal text, and such a field holds no NUL; every other field is the ValueError or UnicodeDecodeError path |
| Common.ParseIntBytesExamples | function_app.py:247-253 | a non-ASCII field and a bare sign are rejected; `-5` reads as -5 |
| Common.ParseIntBytesShowNat | function_app.py:247 | decoding ASCII bytes and then `int()` reads back every decimal, and that text holds no NUL |
| ModernStatus.EncodeHandshake | function_app.py:78-85 | the handshake can be built iff the address is at most 249 bytes and the port fits 16 bits; it is then 7 bytes longer than the address and starts with its own length |
| ModernStatus.HandshakeLayout | function_app.py:75-85 | the handshake can be built iff the address is at most 249 bytes and the port fits 16 bits; it is then the length byte, `00`, `2F` (protocol 47), the address length, the address, the port big-endian, and `01` |
| ModernStatus.HandshakeRoundTrip | function_app.py:78-85 | decoding a built handshake gives back its address and port |
| ModernStatus.HandshakeDecodedIsEncoded | function_app.py:78-85 | every packet the decoder accepts is the encoding of what it returns, so the encoding is canonical |
| ModernStatus.AttemptParse | function_app.py:109-132 | a parse succeeds iff the buffer exceeds 10 bytes, a `{` comes before the last `}`, and the slice between them decodes; the result is `players.online`, defaulting to 0 |
| ModernStatus.ScanFrom | function_app.py:99-139 | the scan fails once 4096 bytes are buffered or the reads run out; any other result is the `online` count of some payload the decoder accepted; ScanFindsFirstParse and FirstParseIsFound make it exactly the first parse within the cap |
| ModernStatus.ScanFindsFirstParse | function_app.py:99-139 | a result other than -1 is the parse of the bytes received through some read k; reads 0 to k were all non-empty and began under 4096 buffered bytes, and no earlier buffer parsed |
| ModernStatus.FirstParseIsFound | function_app.py:99-139 | conversely, however the response is split into reads, a buffer that is the first to parse within the cap is what the scan returns |
| ModernStatus.FirstParseUnshift | function_app.py:102-130 | a first parse at read k >= 1 is a first parse at read k - 1 of the scan that starts after the first read |
| ModernStatus.FirstParseShift | function_app.py:102-130 | a first read that does not parse shifts the first successful read of the remaining scan one place later |
| ModernStatus.BufferAfterFirstRead | function_app.py:106 | the buffer after n reads equals the buffer after the first read followed by n - 1 further reads |
| ModernStatus.ReadStatusResponse | function_app.py:99-139 | the chunked reading loop returns exactly the response-scan specification |
| ModernStatus.ShortResponseFails | function_app.py:109 | a response of at most 10 bytes yields -1, however it is chunked |
| ModernStatus.EmptyChunkEndsRead | function_app.py:103-105 | after an empty chunk nothing the peer sends changes the outcome |
| ModernStatus.ReadStopsAtCap | function_app.py:102 | once 4096 bytes are buffered, later chunks do not change the outcome |
| ModernStatus.WholeFrameIsRead | function_app.py:113-127 | a frame whose `{...}` payload arrives in one read of 11 to 1024 bytes yields that payload's `online` count |
| ModernStatus.ModernAttempt | function_app.py:63-143 | a result other than -1 needs a buildable handshake and is the `online` count of some payload the decoder accepted; ScanFindsFirstParse ties it to the bytes actually received |
| ModernStatus.ModernAttemptSends | function_app.py:75-91 | the bytes written are the handshake plus exactly `01 00`, nine bytes more than the address; an oversized address or port fails with -1 before sending |
| LegacyStatus.DecodeUtf16Be | function_app.py:182 | a decoded text has at least a quarter and at most a half as many characters as there are bytes |
| LegacyStatus.EncodeUtf16Be | function_app.py:182 | the encoding has an even length of 2 to 4 bytes per character |
| LegacyStatus.EncodeChar | function_app.py:182 | a character takes two UTF-16 bytes, or four as a surrogate pair |
| LegacyStatus.Utf16RoundTrip | function_app.py:182 | strict UTF-16BE decoding undoes encoding for every string |
| LegacyStatus.OddLengthFails | function_app.py:182 | an odd byte count never decodes |
| LegacyStatus.DecodedIsEncoded | function_app.py:182 | any byte string that decodes is exactly the encoding of its decoded text |
| LegacyStatus.EncodeUnit | function_app.py:182 | a unit that is not a surrogate encodes back to its two bytes |
| LegacyStatus.EncodePair | function_app.py:182 | a high-low surrogate pair names a supplementary character, which encodes back to its four bytes |
| LegacyStatus.UnpairedSurrogatesFail | function_app.py:182 | a high surrogate followed by a non-surrogate, and a lone low surrogate, are rejected |
| LegacyStatus.Slice | function_app.py:179 | Python slicing `b[i:j]`: never longer than asked; exact when the input is long enough, the rest of the input when it ends inside the range, and empty when it ends before `i` |
| LegacyStatus.LegacyParse | function_app.py:168-197 | a result other than -1 comes from a packet starting with 0xFF: it is field 4, as an integer, of the NUL-split text decoded from the announced (clamped) slice, which has five fields or more and a numeric field 5 when there are six or more |
| LegacyStatus.KickHeader | function_app.py:176-179 | the header is 0xFF followed by a big-endian count that reads back as the announced number of characters |
| LegacyStatus.LegacyRejects | function_app.py:168-186 | under 3 bytes, a first byte other than 0xFF, an odd payload, or fewer than five fields all give -1 |
| LegacyStatus.LegacyParseAnnounced | function_app.py:176-191 | behind a header announcing at least as many characters as arrived, NUL-free fields parse to field 4 when there are five fields or more, field 4 is a number and field 5 (if any) is a number, and to -1 otherwise |
| LegacyStatus.LegacyParseFields | function_app.py:176-191 | the kick packet a server sends for NUL-free fields parses to field 4 under the same conditions, and to -1 otherwise |
| LegacyStatus.LegacyOverAnnouncedCount | function_app.py:179-188 | a header announcing 70 characters in front of a 20-character text still parses to field 4 |
| LegacyStatus.LegacyRoundTrip | function_app.py:176-191 | for the kick packet of fields with field 4 = n (and a numeric field 5 if present), the parse returns n |
| LegacyStatus.LegacySingleFieldRejected | function_app.py:184-197 | `FF 00 05` + UTF-16BE "12345" has a single field and gives -1 |
| LegacyStatus.LegacyAttempt | function_app.py:151-201 | a result other than -1 needs a first read of at least 3 bytes that starts with 0xFF |
| LegacyStatus.LegacyAttemptSteps | function_app.py:159-201 | the ping is `FE 01`; no connection or no read gives -1; otherwise the result is the legacy parse of the first read |
| QueryStatus.QueryPacketLayout | function_app.py:218-235 | the handshake is `FE FD 09 00 00 00 01`; the stat request is `FE FD 00 00 00 00 01` followed by the token unchanged |
| QueryStatus.TrimLeadingNul | function_app.py:231 | drops exactly the leading NUL bytes |
| QueryStatus.TrimTrailingNul | function_app.py:231 | drops exactly the trailing NUL bytes |
| QueryStatus.StripNul | function_app.py:231 | `strip(b'\x00')` returns a slice that neither starts nor ends with NUL, with only NULs cut off |
| QueryStatus.ChallengeToken | function_app.py:227-231 | there is no token iff the reply is under 5 bytes; a token is no longer than the payload and neither starts nor ends with NUL |
| QueryStatus.TokenEchoed | function_app.py:227-235 | a reply of a 5-byte header, the token and NUL yields the token, which the stat request carries verbatim |
| QueryStatus.ParseBasicStat | function_app.py:243-256 | a result other than -1 is field 4, as an integer, of a payload after the 5-byte header that splits into six fields or more, with field 5 numeric too |
| QueryStatus.ParseJoinedFields | function_app.py:243-256 | on NUL-free fields, the parse returns field 4 when fields 4 and 5 are both numbers, else -1 |
| QueryStatus.BasicStatReadsFieldFour | function_app.py:243-251 | with field 4 = n and a numeric field 5, the parse returns n |
| QueryStatus.CommentLayoutReadsMaxPlayers | function_app.py:242-251 | for the layout the comment documents, the parse returns maxplayers or -1, never numplayers unless the two are equal |
| QueryStatus.QueryAttempt | function_app.py:209-260 | a result other than -1 needs a handshake reply of at least 5 bytes and is the basic-stat parse of the reply to a stat request |
| QueryStatus.QueryAttemptSteps | function_app.py:222-239 | a missing or short handshake reply gives -1; otherwise the stat reply for the stripped token decides |
| QueryStatus.QueryReadsThree | function_app.py:222-251 | a server that echoes its token and reports 3 players in field 4 is read as 3 |
| Prober.Probe | function_app.py:33-61 | the count is at least -1; the methods run are a prefix of modern, legacy, query; a closed port runs none; a count of 0 or more is the last method's outcome |
| Prober.FirstSuccessIsShortCircuit | function_app.py:45-61 | running methods in order until one is non-negative: the methods run form a prefix, all but the last failed, and -1 means every method in the list was tried and failed |
| Prober.ProbeIsFirstSuccess | function_app.py:33-61 | a closed port gives -1 with nothing run; otherwise the probe is that short-circuit over modern, legacy, query |
| Prober.ProbeOrdering | function_app.py:38-61 | the count is -1 or the last method's outcome; legacy runs only after modern failed, query only after both; -1 iff the port is closed or all three fail |
| LogActivity.Lower | function_app.py:382 | `lower()` keeps the length and lowers each character |
| LogActivity.LastLines | function_app.py:381 | `lines[-n:]` is the last n lines, or all of them when there are fewer or when n is 0 (`lines[-0:]` is every line) |
| LogActivity.ConnectionLineCount | function_app.py:401-405 | the count of connection lines never exceeds the number of lines |
| LogActivity.RecentActivity | function_app.py:325-417 | no log or an empty one is no activity; apart from a fetch error, activity is reported only when some line of the log is an activity or a connection line |
| LogActivity.CheckRecentActivity | function_app.py:325-417 | both counting loops return exactly the activity verdict: a fetch error is activity, no log is none, else an activity line in the last 50 or more than 2 connection lines in the last 30 |
| LogActivity.SplitAppendLine | function_app.py:346 | appending a newline and a line to the log appends one line to its split |
| LogActivity.NewActivityLineIsSeen | function_app.py:381-391 | a log ending in an activity line always reads as activity |
| LogActivity.OnlyRecentLinesCount | function_app.py:381-412 | two logs with the same last 50 lines get the same verdict |
| LogActivity.SpaceRunStart | function_app.py:300 | the start of the blank run before a position: everything from it on is blank, and the character before it is not |
| LogActivity.WordRunStart | function_app.py:300 | the start of the word run before a position: everything from it on is a word character, and the character before it is not |
| LogActivity.WordBefore | function_app.py:300 | a captured name is non-empty and made of word characters |
| LogActivity.NameFromFindsPhrase | function_app.py:300 | the search for `(\w+)\s+(?:phrase...)` finds a name iff some phrase occurrence at or after the start has a word and blanks in front of it, and the name is the word in front of the earliest such occurrence |
| LogActivity.EventOfPhrases | function_app.py:293-313 | a join needs a join phrase in the lowered line, a leave a leave phrase and no join phrase; the name is the non-empty word in front of one of the line's own phrases |
| LogActivity.Replay | function_app.py:292-313 | every name left after the scan is the name of some join line |
| LogActivity.PlayerEstimate | function_app.py:268-323 | the estimate never exceeds 50, the number of lines scanned |
| LogActivity.EstimatePlayers | function_app.py:268-323 | the newest-first loop returns exactly the size of the replay of the last 50 lines, or 0 on a fetch error or empty log |
| LogActivity.ReplayKeepsOldestEvent | function_app.py:292-313 | a name ends up counted iff the oldest line in the window that mentions it is a join |
| LogActivity.ReplayOrderConsequences | function_app.py:292-313 | join then leave counts the player; leave then join does not |
| LogActivity.ReplayBoundedByJoins | function_app.py:292-315 | the estimate never exceeds the number of join lines |
| LogActivity.EstimateBounds | function_app.py:283-319 | 0 on a fetch error or empty log; otherwise at most the join lines among the last 50 |
| LogActivity.NameFromSkipsWord | function_app.py:300 | no name is captured at positions inside a leading word |
| LogActivity.NamedPhraseLine | function_app.py:300 | `word phrase...` captures that word |
| LogActivity.NamedEventLines | function_app.py:296-312 | `<name> joined the game...` is a join of name; `<name> left the game...` without a join phrase is a leave of name |
| Monitor.LoadState | function_app.py:477-495 | a missing entity (or a failed read) gives a fresh state seen now with no failure key; a stored one gives its values, counters defaulting to 0 |
| Monitor.Persist | function_app.py:497-514 | writes every property, the failure counter defaulting to 0 and the check time being now |
| Monitor.PersistLoadRoundTrip | function_app.py:477-514 | what is written loads back unchanged, except a missing failure counter (as 0) and the check time |
| Monitor.MonitorState.Load | function_app.py:477-495 | the state dictionary holds exactly what get_monitoring_state returns |
| Monitor.MonitorState.Tick | function_app.py:546-637 | the step-by-step update of the state gives exactly the tick specification's new state, stop call and write |
| Monitor.MinecraftMonitor | function_app.py:518-639 | unconfigured runs touch nothing; otherwise the table ends up holding what the tick writes, the tick starting from a fresh state when the read failed |
| Monitor.EffectiveCount | function_app.py:569-597 | the count acted on is never negative when the probe is -1 or a count and the estimate is a count; it is positive only as the probe's count or, when the probe failed, the log estimate |
| Monitor.Decide | function_app.py:546-637 | outside the guards nothing changes or is written; past them the new state is written; stop is called only with no players, the empty-check limit reached and no final activity; empty checks become 0, stay or grow by one; the last-seen time stays or becomes now |
| Monitor.GuardsSkipTick | function_app.py:525-559 | without configuration, a running container or an IP, nothing is stopped or written |
| Monitor.WritesIffMonitorable | function_app.py:546-637 | a tick writes iff it got past the guards, and it writes its new state |
| Monitor.FailureCountedBelowLimit | function_app.py:577-592 | the first protocol failure without log activity only bumps the failure counter |
| Monitor.FailureLimitCountsAsEmpty | function_app.py:579-612 | at the failure limit the server counts as empty and the counter resets |
| Monitor.MissingFailuresIsZero | function_app.py:579 | a state without a failure key behaves exactly like one with 0 |
| Monitor.ActivityWithoutNamesCountsEmpty | function_app.py:573-608 | log activity without recognised names resets failures but counts an empty check |
| Monitor.EffectiveCountBounds | function_app.py:563-596 | the count acted on is never negative when the probe is -1 or a count and the estimate is a count; it is positive only as the probe's or the log estimate's count |
| Monitor.PlayersResetCounters | function_app.py:600-604 | players reset both counters, record the time seen, and never stop the server |
| Monitor.StopGate | function_app.py:606-630 | stop is called iff past the guards and failure counting, no players, the empty-check limit reached, and no final activity |
| Monitor.NoStopOnFirstEmptyCheck | function_app.py:606-612 | a server is never stopped on its first empty check |
| Monitor.FinalCheckPostpones | function_app.py:612-620 | a final-check veto resets the empty checks and records players as seen now |
| Monitor.StopOutcome | function_app.py:621-630 | a successful stop resets the counters; a failed one keeps the empty checks at the limit, so stop is retried |
| Monitor.TickKeepsCountersInRange | function_app.py:569-608 | empty checks stay non-negative and failures stay 0 or 1 |
| Monitor.OnlineIdleStopsOnSecondTick | function_app.py:593-624 | a reachable server with no players is stopped on the second tick |
| Monitor.OfflineIdleStopsOnFourthTick | function_app.py:569-624 | an unreachable server with quiet logs is stopped on the fourth tick, since ticks alternate between failure counting and empty checks |
| Monitor.Observe | function_app.py:563-567 | the probe count is never below -1 and the log estimate never negative |
| Monitor.FinalLogErrorNeverStops | function_app.py:414-417 | a log error on the final check is taken as activity and never lets the server stop |
| Monitor.ActivityLogErrorResetsFailures | function_app.py:566-576 | a log error on the 5-minute check is taken as activity, so protocol failures are not counted |
| Monitor.FailureAtLimitIsNoPlayers | function_app.py:569-597 | once failures reach the limit, a failed probe with quiet logs is decided exactly as a probe reporting 0 players |
| Monitor.ClosedPortIsNoPlayers | function_app.py:569-597 | with a closed port (which the probe reports as -1) and empty logs, once failures reach the limit, a tick does exactly what it does for a reachable server reporting 0 players |
| Monitor.EffectiveCountObserved | function_app.py:563-597 | whatever the prober and the logs answer, the count a tick acts on is never negative |
| Monitor.ReadFailureStartsFresh | function_app.py:477-495 | a failed table read makes the tick decide as on the first run, and past the guards write what it would write then, whatever is stored |
| Monitor.ReadFailureDelaysStop | function_app.py:489-495 | a stored pending empty check that would stop an idle server is forgotten after a failed read: the tick only records the first empty check |

## Left out

- Sockets, timeouts and the network are not modelled: the TCP and UDP peers are input functions. `test_port_connection` is the boolean `portOpen`.
- Python's `json.loads` is not modelled: it is an input function. A `players.online` value that is not an integer is not representable. A float or a bool compares with 0 and would be returned as the count; a string, None, a list or a dict makes the comparison in get_minecraft_player_count raise.
- `host` (the UTF-8 encoding of the container IP) is given alongside the IP text rather than computed from it.
- `int()` accepts only an optional sign and ASCII digits. Surrounding whitespace, underscores and non-ASCII digits, which Python also accepts, are not modelled.
- `lower()` and the regex `\w`/`\s` classes cover ASCII only. `\s` is space, tab, CR, LF, VT, FF and U+001C to U+001F. Names with non-ASCII letters, and names followed by a non-ASCII blank such as U+00A0, are not captured.
- The regex search is modelled by its effect: the word before the blanks in front of the earliest phrase occurrence that has one.
- The Azure SDK calls are inputs of a tick: `get_container_info`, `stop_container`, `get_table_client`, `create_table`, `list_logs`. A failed table write is not modelled; every write is taken to succeed.
- Logging, log messages and the `minutes_back` argument are not modelled. The argument is accepted and, as in the source, unused.
- All timestamps of a tick are one opaque `now`; clocks are not modelled.
- discord_bot.py is not part of this model.

## Notes on the source

The proofs make three behaviours of the code explicit. They are modelled as written.

- The query parser returns field 4 of the basic stat. Under the layout the comment at function_app.py:242 describes, that field is maxplayers, not numplayers (`QueryStatus.CommentLayoutReadsMaxPlayers`).
- The newest-first replay of join and leave lines counts a name iff the oldest line that mentions it is a join. So a player who joined and then left is still counted, and one who left and rejoined is not (`LogActivity.ReplayKeepsOldestEvent`, `LogActivity.ReplayOrderConsequences`).
- A quiet server that the probe cannot reach is stopped on the fourth tick, not the second, because its ticks alternate between counting a failure and counting an empty check (`Monitor.OfflineIdleStopsOnFourthTick`).
