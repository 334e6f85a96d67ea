# Chat relay core, modelled in Dafny

`server.c` is a small HTTP chat relay that keeps everything in memory:

- **Publish.** A client POSTs a form body `message=...&client_id=...`. `handle_post` extracts the two raw values and checks that the raw message is not empty and that the store has room. If both hold, it percent-decodes the values into the next slot of the global `message_store` (capacity `MAX_STORED_MSGS` = 500) and increments `total_messages`.
- **Poll.** A client GETs `/receive?client_id=...`. `handle_get` decodes the identity, which is `"unknown"` when the URL has no `?`. It finds or creates that identity's session in the global `clients` array (capacity `MAX_CLIENTS` = 50) with `get_client_index`. It replies with every stored message from the session's `last_seen_index` on that the identity did not send, each followed by a newline. It then moves the cursor to `total_messages`.

The project models this core:

- `url_decode`, `get_param_value` and `get_client_index`;
- the store and cursor logic of both handlers;
- the four globals.

There are two layers:

- **`ChatState` (chat_state.dfy).** The relay state is a value: the used prefixes of both arrays. Publish and poll are functions of that state (`PublishStep`, `PollStep`). The system's guarantees are proved about them as lemmas: no self-echo, no loss, no duplication, cursor monotonicity, append-only bounded log, find-or-create semantics, and silence on a repeated poll.
- **`Server.Relay` (relay.dfy).** A class holding the arrays and counters, as the C globals do. Its methods update them in place with the same loops as the C code. Each is proved to produce exactly the state and reply that `ChatState` specifies.

The string helpers are modelled the same way: a specification function plus a loop method proved equal to it.

- `CStrings` (cstrings.dfy) models `strstr`, `strchr` and the NUL truncation that every C string function applies.
- `UrlDecoding` (url_decode.dfy) models `url_decode`.
- `Params` (params.dfy) models `get_param_value`.

In four places the code behaves differently from what the protocol suggests, and the model follows the code:

- The key lookup is a substring search (`strstr`), not an exact match at a pair boundary. So `client_id=` is found inside `xclient_id=` (`Params.ParamValueMatchesInsideLongerKey`).
- A URL with a `?` but no `client_id` polls as the empty identity `""`. Only a URL with no `?` at all polls as `"unknown"` (`ChatState.QueryIdentityWithoutKey`).
- A full registry sends every new identity to session 0, whose cursor it then moves. Messages pending for session 0's owner can be lost this way (`ChatState.FullRegistryLosesMessages`).
- The emptiness check on a publish applies to the raw, still-encoded message. `%00` therefore stores an empty message.

`%XY` escapes follow `strtoul(code, NULL, 16)` on the two characters, then a cast to `char`:

- leading C-locale white space is skipped;
- a sign is read, and a minus negates modulo 2^64;
- the value is the longest run of hex digits.

So `%41` gives `A`, `%4G` gives byte 4, `%ZZ` gives NUL, and `%-1` gives byte 255. A NUL produced this way truncates the stored text as C sees it (`CStrings.AsCString`).

## Model

| member | source | states |
|---|---|---|
| CStrings.FirstOccurrenceFrom | server.c:64 | the result is an occurrence of the pattern at or after the start, and no earlier position holds one; `None` only when no position does |
| CStrings.FindSubstring | server.c:64 | the left-to-right scan of `strstr` returns exactly the first occurrence of the pattern |
| CStrings.FirstIndexOfFrom | server.c:67 | the result holds the character and no earlier position from the start does; `None` only when none does |
| CStrings.FindChar | server.c:67 | the forward scan of `strchr` returns exactly the first position of the character |
| CStrings.AsCString | server.c:107-108 | what C string functions see of a buffer: a prefix of it with no NUL, cut exactly at the first NUL if there is one |
| UrlDecoding.Decoded | server.c:40-56 | one output character per step (escape, `+` or plain character), so the output is never longer than the input |
| UrlDecoding.UrlDecode | server.c:40-56 | the character-by-character walk appends exactly the characters `Decoded` specifies |
| UrlDecoding.DecodeStep | server.c:44-53 | one pass of the loop body writes one character and advances the read position by 3 for a complete escape, or by 1 otherwise, exactly as `Decoded` does |
| UrlDecoding.SkipSpaces | server.c:46 | the result is a suffix of the input that does not start with C-locale white space; `SkipSpacesDropsOnlySpaces` adds that everything dropped is white space |
| UrlDecoding.SkipSpacesDropsOnlySpaces | server.c:46 | every character `strtoul` skips before the number is white space, so with `SkipSpaces`'s own contract the result is exactly the input without its leading white space |
| UrlDecoding.HexRun | server.c:46 | `strtoul` reads the longest prefix made only of hex digits |
| UrlDecoding.StrToUl16 | server.c:46 | defines `strtoul(code, NULL, 16)` on the two-character code: skip white space, read an optional sign, convert the longest hex-digit run, negate modulo 2^64 for a minus. Its values are stated by `EscapeOfHexPair`, `EscapeOfHexThenOther`, `EscapeOfNonNumber` and `EscapeOfMinus` |
| UrlDecoding.EscapeByte | server.c:46 | defines the `(char)` cast of that value, which keeps its low eight bits; its contract states that the result is a byte. The `EscapeOf*` lemmas give its value |
| UrlDecoding.EscapeOfHexPair | server.c:44-47 | `%XY` with two hex digits, in either case, decodes to the byte with value 16·X + Y |
| UrlDecoding.EscapeOfHexThenOther | server.c:46 | a hex digit followed by a non-digit decodes to that one digit's value |
| UrlDecoding.EscapeOfNonNumber | server.c:46 | an escape whose first character starts no number, such as `%ZZ`, decodes to NUL |
| UrlDecoding.EscapeOfMinus | server.c:46 | `%-X` decodes to the low byte of −X in 64-bit unsigned arithmetic |
| UrlDecoding.DecodedWithoutEscapes | server.c:48-53 | without `%` the length is kept, each `+` becomes a space, and every other character is copied unchanged |
| UrlDecoding.DecodeOfPercentEncode | server.c:44-47 | decoding inverts percent-encoding for every byte string |
| Params.ParamValue | server.c:60-78 | the extracted value never contains `&` and is no longer than the data |
| Params.GetParamValue | server.c:60-78 | the `strstr` then `strchr` extraction returns exactly `ParamValue` |
| Params.ParamValueAbsent | server.c:64-76 | without `key=` anywhere in the data the value is empty |
| Params.ParamValuePresent | server.c:64-74 | with the first `key=` at `i`, the value is the text after it up to the next `&` or the end |
| Params.ParamValueMatchesInsideLongerKey | server.c:62-64 | the match is a substring match: `client_id` is read from `xclient_id=7&client_id=8` as `7` |
| ChatState.InitialInv | server.c:31-35 | the zero-initialised globals satisfy the relay invariant |
| ChatState.FindSessionFrom | server.c:82-86 | the result is the lowest index at or after the start whose session has the id; `None` only when no session has it |
| ChatState.Resolve | server.c:81-94 | the index is inside the registry, and the registry stays within capacity. The old sessions are unchanged and at most one is appended. The session at the index has the id, except in the full-registry fallback `(0, unchanged)` |
| ChatState.FindSessionFindsFirst | server.c:82-86 | the linear search finds the lowest index holding the id |
| ChatState.ResolveKnown | server.c:82-86 | a known id gets its lowest-indexed session and the registry is unchanged |
| ChatState.ResolveUnknown | server.c:87-93 | an unknown id with room gets a new session at index `total_clients` with cursor 0. When the registry is full it gets index 0 and nothing changes |
| ChatState.ResolvePreservesInv | server.c:88-91 | find-or-create keeps the registry within capacity, the cursors within the log, and the ids distinct |
| ChatState.ResolveAgain | server.c:82-86 | after the chosen session's cursor moves, the same id resolves to the same index and creates nothing |
| ChatState.PublishStep | server.c:98-113 | defines `handle_post` on the state: extract the raw message and id, and if the raw message is non-empty and the log has room, append both decoded and NUL-truncated. Its contract: the registry is untouched and the log only grows, by at most one. `PublishAppendsAtMostOne` and `PublishPreservesInv` state the rest |
| ChatState.PublishAppendsAtMostOne | server.c:105-113 | one message is stored exactly when the raw message is non-empty and the log is not full. The new entry is the decoded message and sender. Earlier entries and the registry are untouched, and otherwise nothing changes |
| ChatState.PublishPreservesInv | server.c:105 | a publish keeps the log within `MAX_STORED_MSGS` and the invariant |
| ChatState.PublishAll | server.c:98-113 | a series of publishes only extends the log, leaves the registry alone and keeps the invariant |
| ChatState.PollIdentity | server.c:127-134 | defines the poller's identity: `"unknown"` without a `?`, otherwise `QueryIdentity` of the text after the first `?`. Its contract: the identity holds no NUL. `PollIdentityWithoutQuery` and `PollIdentityWithQuery` state the two cases |
| ChatState.QueryIdentity | server.c:129-131 | defines the decoded, NUL-truncated `client_id` of a query string. Its contract: no NUL. `QueryIdentityWithoutKey` states that a missing key gives `""` |
| ChatState.PollIdentityWithoutQuery | server.c:132-134 | a URL without `?` polls as `"unknown"` |
| ChatState.PollIdentityWithQuery | server.c:128-131 | a URL with a `?` polls as the decoded `client_id` of the text after the first `?` |
| ChatState.QueryIdentityWithoutKey | server.c:129-131 | a query string without `client_id=` polls as `""`, not `"unknown"` |
| ChatState.Batch | server.c:139-156 | defines the text the collecting loop has built after visiting entries `from` to `upTo`. `BatchRendersSelected` states that it is the selected messages rendered in log order, and `PollReplyEmptyIff` states when it is empty |
| ChatState.PollStep | server.c:123-159 | defines `handle_get` on the state: resolve the identity, find or create its session, reply with the batch from its cursor, and move the cursor to the end of the log. Its contract: the log is untouched and the registry only grows, within `MAX_CLIENTS`. `PollRepliesPending`, `PollAdvancesCursor`, `PollPreservesInv` and `PollTwiceIsSilent` state the rest |
| ChatState.Selected | server.c:143 | every delivered index lies between the cursor and `total_messages` |
| ChatState.SelectedExcludesOwn | server.c:151 | no self-echo: no delivered message was sent by the poller |
| ChatState.SelectedIncludesForeign | server.c:143-155 | no loss: every message from the cursor on that the poller did not send is delivered |
| ChatState.SelectedIncreasing | server.c:143 | no duplication: delivered indices are strictly increasing, so they follow log order |
| ChatState.SelectedIsUnseenForeign | server.c:143-156 | the delivered indices contain no message sent by the poller, contain every other message from the cursor on, and are strictly increasing |
| ChatState.Render | server.c:152-154 | the rendered batch is empty exactly when nothing is delivered |
| ChatState.BatchRendersSelected | server.c:143-156 | the text the loop builds is the selected messages rendered in log order, each followed by a newline |
| ChatState.PollRepliesPending | server.c:136-156 | a poll replies with exactly the messages pending for its identity, in log order |
| ChatState.PollReplyEmptyIff | server.c:140-156 | the reply is empty exactly when every message from the cursor on was sent by the poller |
| ChatState.PollAdvancesCursor | server.c:136-159 | a poll leaves the log and every identity alone, and never moves a cursor backwards or past the log. The polled session's cursor ends at `total_messages` and no other session changes |
| ChatState.PollPreservesInv | server.c:136-159 | a poll keeps the relay invariant |
| ChatState.PollTwiceIsSilent | server.c:136-159 | a second poll with no request in between replies with nothing and changes nothing |
| ChatState.SelectedSplit | server.c:143-156 | splitting the scanned range at a midpoint splits the delivery without loss or repetition |
| ChatState.PollsDeliverEachMessageOnce | server.c:98-159 | a poll, then any publishes, then a second poll by the same identity together deliver every foreign message from the first cursor on, each once and in order |
| ChatState.FullRegistryLosesMessages | server.c:88-93 | with a full registry, a poll by a new identity moves session 0's cursor. A message pending for session 0's owner is then never delivered to it |
| Server.Relay.constructor | server.c:31-35 | the globals start empty and satisfy the invariant |
| Server.Relay.GetClientIndex | server.c:81-94 | the loop over `clients` returns the index and leaves the registry exactly as `Resolve` says. The store is unchanged and the index is below `MAX_CLIENTS` |
| Server.Relay.HandlePost | server.c:98-113 | the in-place update of `message_store` and `total_messages` gives exactly `PublishStep`'s state and stored flag |
| Server.Relay.HandleGet | server.c:123-159 | the in-place update of `clients` gives exactly `PollStep`'s state and reply |
| Server.Relay.PollerIdentity | server.c:127-134 | the identity computed with `strchr`, `get_param_value` and `url_decode` is `PollIdentity` |
| Server.Relay.CollectUnseen | server.c:139-156 | the collecting loop returns the batch of foreign messages from the start index to `total_messages` |

## Left out

- `main`, socket setup, `accept`/`recv`, request-line parsing and body location (server.c:188-249). These are network I/O. The handlers take the URL and body as strings.
- Signal handling and `cleanup_handler`. These are process lifecycle.
- `send`, `printf` and the literal HTTP response text. These are output side effects. Only the response body of a poll is modelled, as `reply`.
- Buffer capacities are left unbounded: `raw_msg` 1024, `raw_id`/`clean_id` 100 and the poll buffer 4096. The C code writes into them without bounds checks, which is undefined behaviour on overflow and is not modelled. The unchecked writes are the `strcpy` and `strncpy` of `get_param_value` (server.c:70-73), whose length comes from the data; the `*dest++` writes of `url_decode` (server.c:46-52) into `sender_id`, `msg` and `clean_id`; and the `strcat` calls of `handle_get` (server.c:152-153). The `strncpy` of an identity into a session (server.c:89) is not modelled either. That copy truncates ids of 100 or more characters without a terminator, and the model stores the whole id.
- UrlDecoding.Decoded: a `%` with fewer than two characters after it is copied as a literal `%`. The C code reads past the end of its input there, which is undefined behaviour.
- The body and URL are taken as character sequences, and a Dafny `char` stands for one C byte. A `char` of value 256 or above has no C counterpart; the model copies it through decoding unchanged. A NUL inside the body or URL would end the C string early, but here it is treated as data. NULs produced by decoding are modelled (`AsCString`).
- A `0x` prefix only takes effect in `strtoul` when a hex digit follows it, which needs a third character, so the code `0x` reads as 0, as the model gives it. Two hex digits cannot overflow 64 bits. Neither case needs modelling.
- Concurrency: the server serves one request at a time, so there is nothing concurrent to model.
