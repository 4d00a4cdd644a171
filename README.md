# memos2discord, modelled in Dafny

memos2discord polls a Memos server for its list of memos and forwards the text
of every new memo to a Discord webhook. At start-up it reads `config.json`. It
stops with exit code 1 when the API URL or the webhook URL is missing. It then
posts "Memo2Discord started!" and loops for ever: fetch the memo list, relay
the new memos, sleep a minute. A memo is new when no cursor is set yet or its
`createTime` is strictly later than the cursor. Each relayed memo moves the
cursor to its own time.

The model has six modules, one file each:

- `Options` (options.dfy): the optional value used for memo content, configuration entries and the cursor.
- `Settings` (settings.dfy): the configuration variables and the start-up check.
- `Fetch` (fetch.dfy): the memo record, the bearer header, the failure fallback of the fetch, and the extraction of the `memos` list.
- `Webhook` (webhook.dfy): the webhook message body.
- `Relay` (relay.dfy): one polling cycle. `ProcessCycle` is the loop, proved equal to the function `Cycle`.
- `Program` (program.dfy): the start-up check, the announcement and a finite run of cycles (`Run`, `Launch`, `Trace`).

The cycle is characterised independently of the loop by `Relayable`. Memo `i`
is relayable when it is later than the starting cursor and strictly later than
every memo before it in the list. In other words, it is a new high. The lemmas
prove four things about a cycle:

- the relayed texts are exactly the texts of the relayable memos, in list order;
- the cursor ends at the maximum of the old cursor and every creation time;
- running the same list again relays nothing;
- a whole run relays the same texts as one cycle over all fetched memos joined together.

The code relays only new highs. It does not relay every memo that arrives out
of order or with a tied time. An older memo that follows a newer one in the
same response is skipped. So a list delivered newest first relays at most its
first memo per cycle (`Relay.NewestFirstRelaysOnlyHead`). The model keeps this
behaviour as written.

## Model

| member | source | states |
|---|---|---|
| `Settings.Load` | main.py:19-22 | each configuration variable is the file's value under its key, or absent; the avatar falls back to the placeholder URL when its key is missing |
| `Settings.RequiredExactlyWhenBothUrlsGiven` | main.py:25 | the start-up check passes exactly when both `MEMOS_API_URL` and `DISCORD_WEBHOOK_URL` are present and non-empty |
| `Fetch.AuthHeaders` | main.py:35 | an `Authorization: Bearer <token>` header exactly when the token is set and non-empty, and otherwise no headers at all |
| `Fetch.MemosOfFetch` | main.py:42-44 | a failed request or a body without a `memos` key gives an empty memo list; otherwise the cycle gets the body's list |
| `Webhook.Payloads` | main.py:47-51 | one webhook message per relayed text, in the same order, each carrying that text |
| `Webhook.EveryPayloadSigned` | main.py:47-51 | every message carries the username "Memos Bot" and the configured avatar URL |
| `Relay.Cycle` | main.py:66-73 | a cycle never relays more texts than there are memos |
| `Relay.ProcessCycle` | main.py:66-73 | the loop returns what `Cycle` gives; its final cursor is the maximum of the old cursor and all creation times; an empty list relays nothing and keeps the cursor |
| `Relay.CursorIsLatest` | main.py:69-73 | after a cycle the cursor is at least the old cursor and every creation time, and equals one of them; it is unset only when it was unset and the list is empty |
| `Relay.IsNewIffRelayable` | main.py:69 | the test against the running cursor holds exactly when the memo is later than the starting cursor and strictly later than every earlier memo |
| `Relay.RelayedExactlyWhenNew` | main.py:69-73 | a memo is relayed, and the cursor set to its time, exactly when it is a new high; otherwise the cycle passes over it and nothing changes |
| `Relay.RelayedIndicesAreNewHighs` | main.py:66-69 | the relayed positions lie in the list, strictly increase, and are exactly the new highs |
| `Relay.SentFollowsIndices` | main.py:66-72 | the k-th relayed text is the content of the memo at the k-th relayed position, or "No content" when it has none |
| `Relay.SentAreRelayableInOrder` | main.py:66-72 | the relayed texts form an in-order subsequence of the list, made of the texts of exactly the new highs |
| `Relay.RelayedInTimeOrder` | main.py:66-73 | the relayed memos come out in strictly increasing creation-time order, whatever the list's order |
| `Relay.FirstMemoRelayed` | main.py:60-73 | from an unset cursor, the first memo of a non-empty list is relayed first and the cursor becomes set |
| `Relay.CursorNeverMovesBack` | main.py:69-73 | within a cycle the cursor never decreases and never falls behind the starting cursor |
| `Relay.NothingLaterNothingSent` | main.py:69 | from a cursor that no creation time exceeds, a cycle relays nothing and keeps the cursor |
| `Relay.Idempotent` | main.py:66-73 | processing the same list again from the cursor a cycle reached relays nothing and leaves the cursor unchanged |
| `Relay.IncreasingAllRelayed` | main.py:66-73 | with strictly increasing creation times all later than the cursor, every memo is relayed in list order and the cursor ends at the last time |
| `Relay.NewestFirstRelaysOnlyHead` | main.py:66-73 | with strictly decreasing creation times only the first memo can be relayed, and only if it is later than the cursor |
| `Relay.CycleOfConcat` | main.py:66-73 | a cycle over two joined lists is the cycle over the first followed by the cycle over the second from the cursor the first reached |
| `Relay.ScenarioFromUnset` | main.py:66-73 | from an unset cursor, memos A at 1 and B at 2 relay "A" then "B" and leave the cursor at 2 |
| `Relay.ScenarioFromCursor` | main.py:66-73 | from cursor 2, memos A at 1, B at 2 and C at 3 relay only "C" and leave the cursor at 3 |
| `Relay.MissingContentSendsPlaceholder` | main.py:70 | a memo without content is relayed as "No content" |
| `Program.Trace` | main.py:60-61 | every run starts with the announcement "Memo2Discord started!" |
| `Program.TraceIsOneCycle` | main.py:60-74 | after the announcement, a run relays what one cycle over all fetched memos, joined in order, relays from an unset cursor, and ends at the same cursor |
| `Program.FailedFetchChangesNothing` | main.py:42-44 | a cycle whose fetch failed relays nothing and neither advances nor resets the cursor |
| `Program.RefetchRelaysNothing` | main.py:62-73 | when the same list is fetched twice in a row, the second cycle relays nothing |
| `Program.CursorIsLatestEverFetched` | main.py:60-73 | after any run the cursor is the latest creation time ever fetched |
| `Program.Run` | main.py:60-74 | the polling loop relays the announcement and then each cycle's texts, carrying the cursor from cycle to cycle, as `Trace` describes |
| `Program.Launch` | main.py:7-27 | a missing or unreadable file, or a missing URL, ends the program with exit code 1 before any message is posted; otherwise the program posts the announcement and every relayed text as webhook messages with the configured avatar |

## Left out

- HTTP transport: the `requests` session, the retry and back-off adapter, and the GET and POST calls. A fetch is an input (`None` when the request raised). A relay is an entry in the output sequence.
- Delivery success or failure of a webhook post. The code ignores it and advances the cursor anyway, so the model does too.
- Reading and parsing `config.json`. A missing or malformed file is `None`. A parsed file is a map from keys to strings. Non-string JSON values, such as a `null` avatar, are not modelled.
- A response body that is not a JSON object, and a body that fails to decode. The model takes a decoded body with an optional `memos` list.
- A memo without `createTime`. The test at main.py:69 short-circuits. With the cursor unset, no comparison runs: the memo is relayed and main.py:73 sets the cursor back to unset, so the next memo is relayed too. With the cursor set, the comparison with a missing time raises a `TypeError` that nothing catches, and the program stops. The model assumes the time is always present and totally ordered, and uses an integer for it.
- JSON `null` as a memo's `content`. The default at main.py:70 applies only when the key is absent, so a `null` content is posted as `{"content": null}`, not as "No content". In the model, `None` means the key is absent.
- JSON `null` as the `memos` list. main.py:64 then gives `None`, and `len(None)` at main.py:65 raises a `TypeError` that nothing catches, so the program stops. In the model, `None` means the key is absent, which gives an empty list.
- The endless `while True` loop and `time.sleep(60)`. A run is modelled as a finite sequence of fetch outcomes, one per cycle. Exit code `None` means the program is still polling.
- Console logging with `print`.
