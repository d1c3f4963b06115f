# Grid Discord RAG bot — a Dafny model of its core

The Grid Discord RAG bot answers questions about AI Power Grid in Discord channels.
It keeps a small SQLite store of channel history, memories, mood and "recent happenings".
It sends a prompt, built from retrieved documentation, to the AI Power Grid text-generation API.
It polls that API's status endpoint until a text, an error or a timeout comes back.
It can add crypto prices (CoinGecko) and image descriptions to its prompts.

This project models the decision and formatting logic around those services and proves what it promises:

- `conversation_db.dfy` (module `ConversationDb`) holds the conversation store. It is a class whose fields are the four tables:
  - an append-only message log with an integer clock for timestamps;
  - a key-unique memory table kept in order of last update;
  - append-only mood and happenings logs.
  The readers and formatters are proved against specification functions on the log (`Newest`, `KeptSince`, `Upsert`, `Without`, `MemoryBank`).
- `grid_client.dfy` (module `GridClient`) covers three parts of the client:
  - the bounded polling loop, over a status stream given as a function from check number to reply;
  - the text normaliser;
  - the context and prompt assembly, and the error returns of `get_answer`.
- `coingecko.dfy` (module `Coingecko`) covers:
  - the price-question gate: the strict patterns are hand-coded word-and-whitespace matchers;
  - known-coin extraction, the price loop and the joined context;
  - the daily/hourly OHLC merge, with an in-place insertion sort on an array;
  - the chart interval and the DexScreener URL choice.
- `vision.dfy` (module `Vision`) covers image URL and attachment recognition (posix `splitext`), the size limit and the image context text.
- `simulate_bot.dfy` (module `SimulateBot`) covers the simulated history and the two prompt builders.
- `bot.py` becomes `bot.dfy` (module `Bot`): the allowed-channel setting, and the `on_message` decision as a pure function.
- Shared modules:
  - `text.dfy` (module `Text`) gives the Python string operations the source relies on: `str.isspace`, ASCII `lower`, `strip`, `replace`, `split`, `join` and `int()` parsing.
  - `transcript.dfy` (module `Transcript`) renders `author: content` lines, which both history formatters produce.
  - `wrappers.dfy` (module `Wrappers`) gives `Option` and `Result`.

Services the code calls are parameters of the model:

- `GridClient`: the generation request is a function `submit` from prompt to reply, and the status endpoint is `statusAt`.
- `Coingecko`:
  - the CoinGecko search, the regex name extraction and the price fetch are `search`, `guessName` and `price`;
  - the two OHLC requests are given by their replies.
- `Vision`: decoding, resizing and base64-encoding an image is `encode`.
- `Bot`: the exception raised on the answer path is `failure`.

## Model

| member | source | states |
|---|---|---|
| ConversationDb.InChannel | conversation_db.py:114-122 | The rows of one channel, bot rows dropped when `exclude_bot`; a row is kept iff it is in the log and eligible |
| ConversationDb.Newest | conversation_db.py:114-128 | At most `limit` rows (all eligible rows for a negative SQLite limit), every one from the channel and eligible |
| ConversationDb.NewestIsTail | conversation_db.py:114-128 | The rows read are a tail of the eligible rows: exactly `limit` when there are more, all of them otherwise |
| ConversationDb.InChannelSorted | conversation_db.py:114-128 | Filtering a timestamp-ordered log keeps it ordered |
| ConversationDb.NewestAreLatest | conversation_db.py:124-139 | The rows read are oldest-first, and an eligible row is read iff it is no older than the oldest row read (the most recent N) |
| ConversationDb.SuffixIsLatest | conversation_db.py:124 | A suffix of an ordered log holds exactly the rows no older than its first |
| ConversationDb.InChannelAppend | conversation_db.py:100-122 | The channel filter distributes over appending rows |
| ConversationDb.AppendsReadBackInOrder | conversation_db.py:100-139 | Reading back as many rows as were just added to a channel gives exactly those rows, in insertion order |
| ConversationDb.CountAfterAppend | conversation_db.py:100-152 | One added row raises its channel's count by one and no other channel's count |
| ConversationDb.Reverse | conversation_db.py:133 | Reversal: same length, element k is element n-1-k |
| ConversationDb.AsUtterances | conversation_db.py:163-166 | One `author: content` utterance per message, in order |
| ConversationDb.KeptSince | conversation_db.py:177 | The rows kept by the delete are exactly the rows with timestamp not before the cutoff |
| ConversationDb.PrunePartitions | conversation_db.py:177-183 | Rows kept plus rows counted as deleted is the whole log |
| ConversationDb.PruneDropsOldest | conversation_db.py:177 | On an ordered log the delete removes a prefix of the oldest rows |
| ConversationDb.NothingOlder | conversation_db.py:177-178 | With no row before the cutoff nothing is deleted and the count is 0 |
| ConversationDb.Lookup | conversation_db.py:210-214 | The row found has the key; nothing is found iff no row has the key |
| ConversationDb.Without | conversation_db.py:254 | Deleting a key keeps exactly the rows with other keys |
| ConversationDb.WithoutUnique | conversation_db.py:254 | Deletion keeps keys unique |
| ConversationDb.WithoutOrdered | conversation_db.py:254 | Deletion keeps the table ordered by update time |
| ConversationDb.LookupWithout | conversation_db.py:254 | Deleting one key does not change the lookup of another |
| ConversationDb.LookupAppend | conversation_db.py:193-200 | Lookup in a table with a row added at the end finds the old row first, else the new one |
| ConversationDb.WithoutSize | conversation_db.py:254-255 | Deletion removes exactly one row iff the key was present, none otherwise |
| ConversationDb.Upsert | conversation_db.py:192-200 | The `INSERT ... ON CONFLICT(key) DO UPDATE` of `save_memory`: the other rows, then the key's row with the new value, source and stamp and the old `created_at` when the key existed; its meaning is stated by `UpsertSemantics` |
| ConversationDb.UpsertSemantics | conversation_db.py:193-214 | After the upsert the key reads back the new value, source and update stamp. `created_at` is kept for an existing key and set for a new one. Other keys are unchanged, keys stay unique, and the table grows by one iff the key was new |
| ConversationDb.UpsertKeepsStamps | conversation_db.py:191-221 | An upsert with a fresh stamp keeps the table ordered by `updated_at` and every `created_at <= updated_at` |
| ConversationDb.DeleteSemantics | conversation_db.py:254-260 | After the delete the key is gone and every other key reads as before |
| ConversationDb.NewestFirst | conversation_db.py:221-233 | One view per row, last row first; on a table ordered by update time the views have strictly decreasing `updated_at`, and unique keys stay unique |
| ConversationDb.MemoryBank | conversation_db.py:235-247 | `format_memories` on a list of memories: `""` for none, else the header and one `- key: value (from source)` line each; `MemoryLinesStart` and `SavedMemoryHeadsBank` state what it opens with |
| ConversationDb.MemoryLinesStart | conversation_db.py:243-245 | The memory text starts with the line of the first memory |
| ConversationDb.SavedMemoryHeadsBank | conversation_db.py:193-247 | Right after a save, the memory bank text opens with its header and the saved memory's line |
| ConversationDb.DescriptionFor | conversation_db.py:293-305 | A mood in the fixed table gets the table's description, any other mood `Currently feeling {mood}` |
| ConversationDb.MoodEntry | conversation_db.py:293-310 | The stored mood is lower-cased and keeps the intensity; the description is the given one or the generated one |
| ConversationDb.StoredMoodIsCanonical | conversation_db.py:305-310 | The stored mood has no upper-case letter, and a table mood's stored name looks up the same description |
| ConversationDb.Truncated | conversation_db.py:341-342 | Content of at most 4500 characters is kept unchanged; longer content becomes its first 4500 characters and `...` |
| ConversationDb.TruncatedIdempotent | conversation_db.py:341-342 | Truncating a stored text again changes nothing |
| ConversationDb.ConversationStore.constructor | conversation_db.py:18-79 | An empty store with a valid clock |
| ConversationDb.ConversationStore.InitDb | conversation_db.py:80-86 | The default `chill` mood is inserted only when the mood table is empty; the current mood is unchanged |
| ConversationDb.ConversationStore.MessageCount | conversation_db.py:143-152 | The `COUNT(*)` of the channel's rows, bot rows included; it is at most the log size, and 0 iff no row of the channel exists |
| ConversationDb.ConversationStore.AddMessage | conversation_db.py:92-152 | Appends one stamped row. The channel's count rises by exactly one, every other channel's count is unchanged, and the other tables are untouched |
| ConversationDb.ConversationStore.GetChannelMessages | conversation_db.py:108-141 | Returns exactly the `Newest` rows, oldest first, as author/content/is_bot/timestamp records |
| ConversationDb.ChatOldestFirst | conversation_db.py:132-139 | Walking the rows in reverse gives one record per row, row n-1-k at position k |
| ConversationDb.ConversationStore.FormatChannelHistory | conversation_db.py:154-168 | `Recent chat (last messages):` followed by one `author: content` line per row read, in order |
| ConversationDb.HistoryText | conversation_db.py:159-168 | `""` for no messages, else `Recent chat (last messages):` and one `author: content` line per message, in order |
| ConversationDb.ConversationStore.CleanupOldMessages | conversation_db.py:170-183 | Leaves exactly the rows not before the cutoff (all channels), returns the number removed, and changes no other table |
| ConversationDb.PruneKeepsInvariant | conversation_db.py:175-183 | Pruning keeps the store invariant, removes a prefix of the log, and leaves no message older than the cutoff |
| ConversationDb.ConversationStore.GetMemory | conversation_db.py:205-214 | None iff no row has the key, else the value of the key's row |
| ConversationDb.ConversationStore.SaveMemory | conversation_db.py:186-203 | The table becomes the upsert, the key reads back the value, and every other key reads as before |
| ConversationDb.UpsertKeepsInvariant | conversation_db.py:186-203 | An upsert stamped with the clock, which then advances, keeps the store invariant |
| ConversationDb.ConversationStore.AllMemories | conversation_db.py:216-233 | One view per memory, strictly most recently updated first, no key twice |
| ConversationDb.ConversationStore.FormatMemories | conversation_db.py:235-247 | The memory bank text of all memories in that order |
| ConversationDb.ConversationStore.DeleteMemory | conversation_db.py:249-260 | Returns true iff the key existed; afterwards it is absent and other keys are unchanged |
| ConversationDb.ConversationStore.CurrentMood | conversation_db.py:263-284 | The latest mood entry, or the default `chill` mood when there is none |
| ConversationDb.ConversationStore.SetMood | conversation_db.py:286-313 | Appends the canonical mood entry, which becomes the current mood |
| ConversationDb.ConversationStore.RecentHappenings | conversation_db.py:321-330 | The latest summary, or `""` when none was set |
| ConversationDb.ConversationStore.SetRecentHappenings | conversation_db.py:332-350 | Appends the truncated content, which becomes the current summary |
| ConversationDb.ConversationStore.FormatRecentHappenings | conversation_db.py:352-357 | Empty iff the summary is empty, else the header followed by the summary |
| Transcript.LinesAppend | simulate_bot.py:20-23 | The lines of two message lists are the concatenation of their lines |
| Transcript.LinesSplitAt | simulate_bot.py:20-23 | The lines split around any message into before, its line, after |
| Transcript.RenderShowsEvery | simulate_bot.py:19-23 | The rendered history starts with its header and contains every message's `author: content` line |
| Transcript.RenderEmpty | simulate_bot.py:16-19 | The rendered history is empty iff there are no messages |
| SimulateBot.FormatChannelHistory | simulate_bot.py:14-25 | `""` iff there are no messages; otherwise `Recent conversation:` and every message's line, in order |
| SimulateBot.ClassificationPrompt | simulate_bot.py:27-45 | Contains the bot name, the history, the quoted current message and the YES/NO instruction |
| SimulateBot.ResponsePrompt | simulate_bot.py:47-62 | Contains the bot name, the history, the quoted current message, and the documentation header followed by the context docs verbatim |
| GridClient.MaxAttempts | grid_client.py:152-153 | The attempt bound is the floor of the wait time over the 3-second interval |
| GridClient.DefaultAttempts | grid_client.py:145-153 | The default bound is 120 // 3 = 40 checks |
| GridClient.Decision | grid_client.py:175-208 | A status check ends polling iff it is done or faulted (or failed), `done` before `faulted`. A failed check gives its message with `done: False`. A done reply gives its first generation's non-empty text with its model or `unknown`, else `Generated text is empty` or `No generations found`. A faulted reply gives its `faulted_message` or `Unknown error` |
| GridClient.Polled | grid_client.py:156-207 | The poll as a function of the status replies: from a given check on, the first deciding reply's outcome, or the timeout once the bound is reached; `PolledCharacterization` states it |
| GridClient.PolledCharacterization | grid_client.py:156-207 | The loop stops at the first deciding check and returns its outcome; otherwise it returns the timeout after exactly the bound's number of checks |
| GridClient.PollForTextResults | grid_client.py:145-210 | The loop's outcome and number of checks are those of `Polled`; it sleeps before every check but the first |
| GridClient.JoinBrokenLines | grid_client.py:218 | Same length; each character is kept, or is a newline that became a space; `JoinChangesOnlyBrokenLines`, `JoinEveryFreeBreak` and `JoinNeverOverlaps` pin it to the left-to-right, non-overlapping `re.sub` |
| GridClient.JoinChangesOnlyBrokenLines | grid_client.py:218 | A character changes only if it is a newline between two non-whitespace characters |
| GridClient.JoinEveryFreeBreak | grid_client.py:218 | Every newline between two non-whitespace characters becomes a space, unless the character before it ended the previous, non-overlapping match |
| GridClient.JoinNeverOverlaps | grid_client.py:218 | Matches do not overlap: a changed newline is never two after a newline that was joined |
| GridClient.LineFeeds | grid_client.py:221 | The reference line-ending conversion leaves no carriage return and changes nothing in text without one |
| GridClient.ReplacementsMakeLineFeeds | grid_client.py:221 | `replace("\r\n", "\n")` then `replace("\r", "\n")` is the reference line-ending conversion |
| GridClient.NormalizeApiText | grid_client.py:212-226 | The result is no longer than the input and is the stripped reference conversion of the joined text |
| GridClient.ReplaceLength | grid_client.py:221 | Replacing a pattern by one no longer never lengthens the text |
| GridClient.NormalizedHasNoCarriageReturn | grid_client.py:221 | No carriage return survives normalisation |
| GridClient.NormalizeJoinsFirstBreakOnly | grid_client.py:218 | Non-overlapping matching: `a\nb\nc` becomes `a b\nc` |
| GridClient.NormalizeNotIdempotent | grid_client.py:218 | Normalising twice can change the text again (`a b\nc` becomes `a b c`) |
| GridClient.NormalizeUnchangedLines | grid_client.py:214-226 | Text whose joined form is already trimmed and free of carriage returns normalises to the joined form |
| GridClient.NoCarriageReturnAbsent | grid_client.py:221 | Text without carriage returns has no CRLF or CR to replace |
| GridClient.Documents | grid_client.py:34-36 | The context string: a `[Document i] text` block per document, numbered from 1 in input order; `DocumentsShowEvery` and `FormatContext` state it |
| GridClient.DocumentsShowEvery | grid_client.py:34-36 | The context contains `[Document i] text` for every document, numbered from 1 |
| GridClient.FormatContext | grid_client.py:33-36 | The `+=` loop builds `Documents`, which is empty iff there are no documents |
| GridClient.Assemble | grid_client.py:42-68 | A template starts with its intro and opening word and contains the context and the question tail |
| GridClient.OpeningsDiffer | grid_client.py:43-59 | The plain template's opening is never the follow-up template's opening |
| GridClient.IsFollowup | grid_client.py:39 | The follow-up test: the lowered question contains `previous question:` or `follow-up question:`; `PromptTemplateChoice` states how it picks the template |
| GridClient.Prompt | grid_client.py:39-68 | The prompt opens with the template chosen by the follow-up test |
| GridClient.PromptHasContext | grid_client.py:42-62 | The prompt contains the formatted context |
| GridClient.PromptHasQuestion | grid_client.py:51-68 | The prompt contains the question followed by the answer cue |
| GridClient.PromptTemplateChoice | grid_client.py:39-68 | The follow-up template is used iff the lowered question contains `previous question:` or `follow-up question:` |
| GridClient.AnswerFor | grid_client.py:133-140 | A poll error becomes `Error: ...`; a missing text becomes the no-text error; a text is normalised |
| GridClient.GetAnswer | grid_client.py:28-143 | Without a key, the fixed error and no request. With a key, the prompt over `[Document i]` blocks is sent, and the reply, status, id and poll outcome decide the answer |
| Coingecko.AsksForPrice | coingecko_mcp.py:511-543 | The gate: the lowered message matches a strict price pattern or contains a direct price string; `GateNeedsKeyword`, `PriceQuestionOpensGate` and `DirectPriceOpensGate` state it |
| Coingecko.StrictKeywords | coingecko_mcp.py:515-529 | Every strict pattern hinges on `price`, `much` or `worth` |
| Coingecko.DirectStringsContainPrice | coingecko_mcp.py:533-543 | Every direct price string contains `price` |
| Coingecko.MatchFindsWord | coingecko_mcp.py:530 | A pattern matching at a position contains each of its words in the text |
| Coingecko.SearchFindsWord | coingecko_mcp.py:530 | A pattern found anywhere in the text puts its keyword in the text |
| Coingecko.GateNeedsKeyword | coingecko_mcp.py:511-543 | The gate opens only for messages containing `price`, `much` or `worth` |
| Coingecko.PriceQuestionOpensGate | coingecko_mcp.py:515-530 | Any message containing `price of` opens the gate |
| Coingecko.DirectPriceOpensGate | coingecko_mcp.py:533-543 | Any message containing a direct price string opens the gate |
| Coingecko.MatchedIds | coingecko_mcp.py:547-560 | The known-coin scan: the id of every table entry whose keyword occurs in the message, in table order; `MatchedIdsMembers`, `MatchedIdsBound` and `MatchedIdsAppend` state it |
| Coingecko.MatchedIdsMembers | coingecko_mcp.py:547-560 | An id is extracted iff some keyword mapping to it occurs in the message |
| Coingecko.MatchedIdsBound | coingecko_mcp.py:547-560 | At most one id per table entry |
| Coingecko.MatchedIdsAppend | coingecko_mcp.py:556-560 | Extraction follows table order |
| Coingecko.EthereumListedTwice | coingecko_mcp.py:547-560 | A message containing `ethereum` gets the id `ethereum` at least twice, through `eth` and `ethereum` |
| Coingecko.CoinIds | coingecko_mcp.py:545-607 | The coin ids: the known matches, or else the first search hit for a non-empty guessed name, or none; `KnownCoinsWin` states the precedence |
| Coingecko.KnownCoinsWin | coingecko_mcp.py:547-564 | When a known coin matches, the ids are exactly the known matches and no search is used |
| Coingecko.PriceLines | coingecko_mcp.py:612-617 | The non-empty price summaries of the coin ids, in id order; `PriceLinesMembers` states it |
| Coingecko.PriceLinesMembers | coingecko_mcp.py:613-617 | A line is kept iff it is a non-empty price result of some id |
| Coingecko.FindCoinIds | coingecko_mcp.py:545-607 | The append loop builds `CoinIds`; the name-guess fallback runs iff no known coin matched, and `search` is consulted only for a non-empty guess |
| Coingecko.FetchPrices | coingecko_mcp.py:612-617 | The price loop keeps the successful price strings in id order |
| Coingecko.CryptoContext | coingecko_mcp.py:503-624 | `get_crypto_context`: `""` when the gate is closed, else the price lines joined by newlines; `QuietMessageGetsNothing`, `ContextIsPriceLines` and `NoCoinNoContext` state it |
| Coingecko.GetCryptoContext | coingecko_mcp.py:503-624 | The context is `CryptoContext`; the name-guess fallback runs iff the gate is open and no known coin matched |
| Coingecko.QuietMessageGetsNothing | coingecko_mcp.py:511-543 | Without `price`, `much` or `worth` the context is empty |
| Coingecko.PriceLinesSplit | coingecko_mcp.py:619-624 | Joining the price lines with newlines and splitting again gives them back |
| Coingecko.ContextIsPriceLines | coingecko_mcp.py:609-624 | With the gate open and some price found, the context's lines are exactly the price lines in coin-id order |
| Coingecko.NoCoinNoContext | coingecko_mcp.py:609-610 | With no coin ids the context is empty |
| Coingecko.MaxTs | coingecko_mcp.py:316 | The maximum daily timestamp is attained and bounds every daily candle |
| Coingecko.NewerThan | coingecko_mcp.py:317-319 | The hourly candles kept are exactly those strictly newer than the cutoff |
| Coingecko.SortByTimestamp | coingecko_mcp.py:325 | The in-place sort leaves the array ordered by timestamp and a permutation of its contents |
| Coingecko.InsertIntoSorted | coingecko_mcp.py:325 | One insertion step extends the ordered prefix and permutes the array |
| Coingecko.MergeCandles | coingecko_mcp.py:316-329 | The merge is sorted, a permutation of the daily candles plus the newer hourly ones, and contains a candle iff it is daily or hourly and newer than every daily one |
| Coingecko.AddedHourlyAreNewest | coingecko_mcp.py:316-319 | Every added hourly candle is newer than every daily candle |
| Coingecko.GetOhlcData | coingecko_mcp.py:276-345 | By cases on the replies: a failed hourly request gives None. For days <= 1 the hourly list is returned unchanged. Otherwise the daily list is merged, and a failed daily request gives None. Empty daily data falls back to the hourly list |
| Coingecko.ChartInterval | coingecko_mcp.py:227 | `daily` iff days > 30, else `hourly` |
| Coingecko.DexScreenerUrlAsWritten | coingecko_mcp.py:492-500 | `get_dexscreener_url` as written: the lowered address is compared with the mixed-case token literal; `AsWrittenNeverFindsPair` shows the pair link is unreachable |
| Coingecko.DexScreenerUrl | coingecko_mcp.py:492-500 | The corrected comparison, both sides lowered: the pair link for the token, the generic link otherwise; `AnyCaseFindsPair` and `OtherAddressesGeneric` state it |
| Coingecko.AsWrittenNeverFindsPair | coingecko_mcp.py:492-500 | As written, every address gets the generic URL |
| Coingecko.AnyCaseFindsPair | coingecko_mcp.py:492-500 | Corrected: the token in checksummed or lower-case form gets the pair URL |
| Coingecko.OtherAddressesGeneric | coingecko_mcp.py:499-500 | Corrected: any other address gets the generic URL |
| Vision.IsImageUrl | vision_handler.py:19-24 | `is_image_url`: the lowered link ends in a supported extension or contains an image host; `ImageUrlIgnoresCase` and `ThreeHostsDecide` state it |
| Vision.LastIndex | vision_handler.py:28-31 | The last position of a character, or -1 when absent |
| Vision.Extension | vision_handler.py:30 | POSIX `os.path.splitext(p)[1]`: from the last dot on, when it follows the last slash and a non-dot precedes it in the file name, else `""`; `ExtensionOfName` and `DotFileRejected` state it |
| Vision.ExtensionOfName | vision_handler.py:28-31 | `splitext` of `base.ext` (no slash, base not all dots) yields `.ext` |
| Vision.IsImageAttachment | vision_handler.py:26-31 | `is_image_attachment` on the file name: a non-empty name whose lowered extension is a supported format; `ImageFileAccepted`, `DotFileRejected` and `AttachmentNameIsImageUrl` state it |
| Vision.ImageFileAccepted | vision_handler.py:26-31 | A name whose lowered extension is a supported format is an image attachment |
| Vision.DotFileRejected | vision_handler.py:26-31 | A name made of leading dots and a dot-free name has no extension and is rejected |
| Vision.AttachmentNameIsImageUrl | vision_handler.py:19-31 | A filename accepted as an attachment also passes the URL test |
| Vision.ImageUrlIgnoresCase | vision_handler.py:21 | The URL test does not depend on letter case |
| Vision.ThreeHostsDecide | vision_handler.py:22-24 | The five host substrings reduce to `imgur.com`, `gyazo.com` and `discordapp.com` |
| Vision.SizeLimit | vision_handler.py:16-52 | Data is accepted iff it is at most 10 MiB (10485760 bytes) |
| Vision.ProcessImage | vision_handler.py:46-52 | Data over 10 MiB gives `None` before any decoding; other data gives what `encode` gives |
| Vision.SourceInfo | vision_handler.py:246 | The filename when non-empty, else the url, else `unknown` |
| Vision.FormatImageContext | vision_handler.py:239-250 | The `+=` loop builds `ImageContext`: empty iff there are no images, else the header and the blocks |
| Vision.BlocksShowEvery | vision_handler.py:245-248 | Every pair in the first n appears as its numbered block |
| Vision.ContextShowsEveryPair | vision_handler.py:245-248 | Every zipped (image, description) pair appears under its number, counting from 1 |
| Vision.BlocksPrefix | vision_handler.py:245 | The blocks depend only on the first n images and descriptions |
| Vision.ExtraImagesDropped | vision_handler.py:245 | Images beyond the descriptions are not shown (zip truncation) |
| Vision.ExtraDescriptionsDropped | vision_handler.py:245 | Descriptions beyond the images are not shown (zip truncation) |
| Vision.HeaderOnlyWithoutDescriptions | vision_handler.py:241-245 | Images without descriptions give the header alone |
| Bot.Classify | bot.py:11 | How one comma-separated entry is read: blank when it strips to nothing, else `int()` of it stripped or refused; `ClassifyReadsStripped` states it |
| Bot.ClassifyReadsStripped | bot.py:11 | An entry is skipped iff it strips to nothing; it is refused iff it is non-blank and `int()` rejects it stripped; otherwise its id is `int()` of it stripped |
| Bot.ReadIdsSucceeds | bot.py:11 | Reading classified entries succeeds iff no entry is refused |
| Bot.ReadIdsValues | bot.py:11 | A successful read gives the ids of the numeric entries, in order |
| Bot.ReadIdsFirstError | bot.py:11 | A failed read reports the first refused entry |
| Bot.ParseEntries | bot.py:11 | Succeeds iff `int()` accepts every non-blank stripped entry, and then gives their ids in order, blank entries skipped. Otherwise it names the first entry `int()` refuses |
| Bot.NonNumberRefused | bot.py:10-11 | A setting with a non-numeric entry after a channel id is refused, naming that entry |
| Bot.AllowedChannels | bot.py:10-11 | `ALLOWED_CHANNEL_IDS`: the setting split on commas and parsed by `ParseEntries`; `EmptySettingAllowsAll` and `AllowedChannelsRoundTrip` state it |
| Bot.EmptySettingAllowsAll | bot.py:10-11 | An unset setting gives the empty allowed list |
| Bot.AllowedChannelsRoundTrip | bot.py:10-11 | Ids written with `str` and joined by commas are read back exactly |
| Bot.ParseRendered | bot.py:11 | Parsing the decimal forms of ids gives the ids |
| Bot.Question | bot.py:43-45 | The question is stripped of surrounding whitespace |
| Bot.Respond | bot.py:48-89 | The reply is help iff the question is empty. An exception gives `Error: ...`; otherwise the answer carries the question |
| Bot.OnMessage | bot.py:29-89 | A reply is sent iff the message is not the bot's own, is in an allowed channel (an empty list allows all) and mentions the bot. Help comes iff the question is then empty, and an answer carries the non-empty question |
| Bot.MentionThenQuestion | bot.py:43-45 | A message opening with the mention asks the stripped rest |
| Bot.BareMentionGetsHelp | bot.py:41-68 | A bare mention, whitespace after it or not, gets the help reply |
| Bot.NoMentionOnlyStripped | bot.py:43-45 | Text without the mention string is only stripped |
| Bot.OnePassRemoval | bot.py:45 | Removal is a single pass, so `<@<@7>7>` leaves `<@7>` |
| Text.ParseIntToString | bot.py:11 | `int(str(i)) == i` |
| Text.SplitJoin | bot.py:10 | Splitting comma-joined, comma-free parts gives the parts back |
| Text.StripEmpty | bot.py:45-48 | Strip gives `""` iff the text is all whitespace |
| Text.ReplaceAbsent | bot.py:45 | Replacing an absent pattern leaves the text unchanged |
| Text.LowerIdempotent | coingecko_mcp.py:511 | Lower-casing twice is lower-casing once |

## Left out

- SQLite plumbing is left out: connections, the schema and its indexes (conversation_db.py:12-79). The tables are fields of `ConversationStore`.
- Timestamps: ISO time strings are an integer clock, advanced by each message or memory write.
  - `cleanup_old_messages` takes its cutoff as a parameter; the `now - days` date arithmetic is clock I/O.
  - The mood and happenings rows carry no stamp; they are read latest-first by insertion order, which stands for `ORDER BY updated_at DESC`.
- Mood intensity is kept as a `real`. `format_mood` (conversation_db.py:315-318) is not modelled: it formats a float with `:.1f`.
- All HTTP, MCP and Discord traffic is replaced by function parameters, which are deterministic oracles.
  - The fallback from public to authenticated CoinGecko requests and the price formatting (coingecko_mcp.py:20-203) are not part of this model.
  - `asyncio.sleep` is counted (`sleeps`), not waited.
- The regex coin-name extraction (coingecko_mcp.py:568-583) is the `guessName` parameter. The CoinGecko search is the `search` parameter.
- The ten gate regexes (coingecko_mcp.py:515-526) are hand-coded word-and-whitespace matchers, not a general regex engine.
  - `\s+` is a run of whitespace and `'?`, `s?` are optional characters.
  - Each `(the\s+)?` group is written as two patterns, so `StrictPatterns` has thirteen entries.
- Coingecko.SortByTimestamp does not state stability. Python's sort is stable, but the merge's result is stated up to permutation.
- Coingecko.GetOhlcData takes the second request's reply as an input.
  - The branches at coingecko_mcp.py:330-335 cannot be reached and are not modelled.
  - Every row is a candle: a malformed row, which would raise and give None, is not modelled.
- Chart rendering (`generate_chart_image`, coingecko_mcp.py:351-489) is not part of this model.
- Image decoding, resizing and base64 encoding are the `encode` parameter of Vision.ProcessImage.
- Image downloads and the OpenAI and Anthropic vision calls are not part of this model.
- Discord transport is left out: embeds, typing, sending, and `mentioned_in`, which is a boolean input.
- Bot.OnMessage does not model the answer text. `get_answer` is called without `await` (bot.py:77), so the text is a coroutine, not the Grid client's answer.
- Strings:
  - `str.lower` and `str.isspace` are modelled on ASCII and the usual whitespace characters only;
  - `int()` is modelled without underscores or non-ASCII digits.
- GridClient.GetAnswer models the error detail of a rejected submission as an opaque string; `json.dumps` is not modelled.
- `retriever.py`, `ingest.py`, `rebuild_index.py`, `test_imports.py` and `view_bot_state.py` are not part of this model.

## Findings

| source | as written | input that shows it | evidently intended | confidence | as-written member | corrected member |
|---|---|---|---|---|---|---|
| coingecko_mcp.py:496 | `token_address.lower()` is compared with a literal that has upper-case letters, so the pair URL is never chosen | `0xa1c0deCaFE3E9Bf06A5F29B7015CD373a9854608` (the token itself) gets the generic URL | compare case-insensitively, so the token in any case gets the pair URL | not executed | Coingecko.AsWrittenNeverFindsPair | Coingecko.AnyCaseFindsPair |
