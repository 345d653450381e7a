# gmpublisher core, modelled in Dafny

gmpublisher is a desktop tool for Garry's Mod players and addon authors. It
browses, extracts and publishes Steam Workshop addons. A Rust backend (a
Tauri application) does the work. A Svelte frontend shows it, and the two
talk through *transactions*: long-running jobs with an id, whose progress,
status text, data, errors and results the backend streams to the frontend.

This project models the core of that system and proves properties of the
model:

- **The transaction layer.**
  - The backend registry of live transactions: both generations of it, the
    `transactions/mod.rs` one and the older `transactions.rs`.
  - The binary frames the websocket sends for each transaction message.
  - The frontend's `Transaction` objects: listeners, the replay of events
    that arrive before anyone listens, and the queue of events for ids not
    yet registered.
- **GMA archives.** The GMA reader and writer of the `lib/gma` crate, with a
  write-then-read round trip, and the memoised GMA file reader of
  `gma/read.rs`.
- **The publish checks.**
  - The whitelist glob matcher and the default ignore lists.
  - `ContentPath::new`, the workshop icon checks, the preview path choice,
    the error texts and `verify_whitelist`.
- **Utilities.** JSON escaping for a single-quoted JavaScript string, and
  the order-keeping de-duplication of a vector.
- **Game addons and search.**
  - The discovery of installed game addons (the id in an addon file's name,
    the workshop cache).
  - The search index: insertion and cleaning in the rank order the items'
    `Ord` is meant to give (see Findings), and quick search.
- **The frontend utilities.**
  - `steam.js`: path trimming, file icons and types, and the workshop item
    cache.
  - `addons.js`: page browsing and the GMA metadata request queue.
  - `dragndrop.js`: drop classification and the drag overlay counter.

Code that changes state step by step is modelled as Dafny classes and
methods. Each method is proved against a specification function or states
its new state outright. Pure code is modelled as functions with lemmas.

| file | module | models |
|---|---|---|
| wrappers.dfy | Wrappers | `Option` and `Result` |
| bytes.dfy | Bytes | little- and big-endian integers, NUL-terminated text |
| utf8.dfy | Utf8 | well-formed UTF-8 (what Rust's `String` guarantees) |
| path_text.dfy | PathText | decimal digits, ASCII lower case, file extensions |
| js_text.dfy | JsText | JavaScript line terminators (what `.` in a regex refuses) |
| sorting.dfy | Sorting | stable `sort_by` and `dedup_by` over integer keys |
| lex_sort.dfy | LexSort | `String` order and `sort_unstable` |
| sorted_search.dfy | SortedSearch | `binary_search_by_key` |
| gma_stream.dfy | GmaStream | a seekable byte reader and a byte writer |
| wire_frames.dfy | WireFrames | src-tauri/src/transactions/websocket.rs |
| transaction_registry.dfy | TransactionRegistry | src-tauri/src/transactions/mod.rs |
| legacy_transactions.dfy | LegacyTransactions | src-tauri/src/transactions.rs |
| frontend_transactions.dfy | FrontendTransactions | app/transactions.js |
| whitelist.dfy | Whitelist | src-tauri/src/gma/whitelist.rs |
| escape_json.dfy | EscapeJson | src-tauri/src/util/escape_json.rs |
| dedup_unsorted.dfy | DedupUnsorted | src-tauri/src/util/dedup_unsorted.rs |
| gma_lib_read.dfy | GmaLibRead | src-tauri/src/lib/gma/read.rs |
| gma_lib_write.dfy | GmaLibWrite | src-tauri/src/lib/gma/write.rs |
| gma_lib_roundtrip.dfy | GmaRoundTrip | what lib/gma writes, lib/gma reads back |
| gma_read.dfy | GmaRead | src-tauri/src/gma/read.rs |
| game_addons.dfy | GameAddons | src-tauri/src/octopus/game_addons.rs |
| search.dfy | SearchIndex | src-tauri/src/search.rs |
| publishing.dfy | Publishing | src-tauri/src/steam/publishing.rs |
| steam_js.dfy | SteamFrontend | app/steam.js |
| addons_js.dfy | AddonsFrontend | app/addons.js |
| dragndrop.dfy | DragDrop | app/dragndrop.js |

## Model

| member | source | states |
|---|---|---|
| Bytes.LERoundTrip | src-tauri/src/lib/gma/read.rs:37-38 | a number below 256^n written as n little-endian bytes reads back as itself |
| Bytes.LE | src-tauri/src/lib/gma/write.rs:21-40 | a value written little-endian in n bytes takes exactly n bytes |
| Bytes.FromLE | src-tauri/src/lib/gma/read.rs:37-38 | reading n little-endian bytes gives a value below 256^n |
| Bytes.BE | src-tauri/src/transactions/websocket.rs:47-85 | a value written big-endian in n bytes takes exactly n bytes |
| Bytes.FromBE | src-tauri/src/transactions/websocket.rs:158-170 | reading n big-endian bytes gives a value below 256^n |
| Bytes.BERoundTrip | src-tauri/src/transactions/websocket.rs:51-55 | a number below 256^n written as n big-endian bytes reads back as itself |
| Bytes.FromLEInjective | src-tauri/src/lib/gma/read.rs:53-56 | two byte strings of one width that read as the same little-endian number are equal |
| Bytes.LEOfFromLE | src-tauri/src/lib/gma/read.rs:53-56 | reading n little-endian bytes and writing the number back gives the same bytes |
| Bytes.BEOfFromBE | src-tauri/src/transactions/websocket.rs:158-170 | reading big-endian bytes and writing the number back gives the same bytes |
| Bytes.U32FromBE | src-tauri/src/transactions/websocket.rs:158-170 | four big-endian bytes give the `u32` they encode |
| Bytes.U16FromBE | src-tauri/src/transactions/websocket.rs:72-81 | two big-endian bytes give the `u16` they encode |
| Bytes.Ascii | src-tauri/src/lib/gma/write.rs:30 | ASCII text becomes one byte per character, of the same code |
| Bytes.UntilNulSplits | src-tauri/src/lib/gma/read.rs:14-22 | splitting at the first NUL fails exactly when there is no NUL; otherwise the text before it is NUL-free and the split puts it back together |
| Bytes.UntilNulTerminated | src-tauri/src/lib/gma/read.rs:14-22 | NUL-free text followed by a NUL splits into that text and whatever follows |
| Utf8.ValidConcat | src-tauri/src/lib/gma/read.rs:19-21 | two well-formed UTF-8 strings concatenated are well-formed |
| Utf8.AsciiValid | src-tauri/src/lib/gma/write.rs:30 | ASCII bytes are well-formed UTF-8 |
| Utf8.ScalarLenExtends | src-tauri/src/lib/gma/read.rs:19-21 | the length of the first encoded scalar does not depend on what follows it |
| Utf8.ScalarPrefix | src-tauri/src/lib/gma/read.rs:19-21 | the first encoded scalar on its own has the same length |
| Utf8.EncodeCharScalar | src-tauri/src/search.rs:73 | each scalar value encodes as one well-formed UTF-8 scalar of its width |
| Utf8.EncodeValid | src-tauri/src/search.rs:73 | the encoding of a string is well-formed UTF-8 whose length is `str::len`, between one and four bytes per character |
| Utf8.ByteLengthAscii | src-tauri/src/search.rs:293 | `len` equals the character count exactly when every character is ASCII |
| PathText.DigitChar | src-tauri/src/octopus/game_addons.rs:67-92 | the digit character of a value below ten reads back as that value |
| PathText.Decimal | src-tauri/src/octopus/game_addons.rs:103-107 | a number's decimal text is all digits, non-empty and without a leading zero |
| PathText.DecimalRoundTrip | src-tauri/src/octopus/game_addons.rs:103-107 | a number's decimal text reads back as the number |
| PathText.DecimalPrefix | src-tauri/src/octopus/game_addons.rs:78-84 | the value of a prefix of a digit string is at most the value of the whole |
| PathText.LastIndexOf | app/steam.js:214-218 | the position found holds the character and none follows it; no position means the character is absent |
| PathText.FirstIndexOf | app/dragndrop.js:6-9 | the position found holds the character and none precedes it; no position means the character is absent |
| PathText.LastIndexOfAt | app/steam.js:214-218 | a position holding the character with none after it is the one found |
| PathText.FirstIndexOfAt | app/dragndrop.js:6-9 | a position holding the character with none before it is the one found |
| PathText.ExtensionSplits | src-tauri/src/steam/publishing.rs:194 | a file name has extension `ext` and stem `stem` exactly when it is `stem.ext` with a non-empty stem and a dot-free `ext` |
| JsText.LineRun | app/dragndrop.js:6 | the run of characters `.` can match is free of line terminators and ends at one or at the end of the text |
| JsText.WholeLine | app/dragndrop.js:6 | `.*` reaches the end of the text exactly when the text has no line terminator |
| WireFrames.WriteJson | src-tauri/src/transactions/websocket.rs:38-45 | appends a 0 byte for null, or a 1 byte, the JSON text and a NUL |
| WireFrames.AsBytes | src-tauri/src/transactions/websocket.rs:47-85 | the bytes built are the frame encoding of the message |
| WireFrames.FrameHeader | src-tauri/src/transactions/websocket.rs:47-85 | every frame starts with its message's tag byte and the id as four big-endian bytes |
| WireFrames.JsonLayout | src-tauri/src/transactions/websocket.rs:38-45 | null is the single byte 0; JSON text is 1, the text and a NUL |
| WireFrames.ProgressFrameLength | src-tauri/src/transactions/websocket.rs:72-81 | progress frames are seven bytes, ending in the progress as a big-endian `u16` |
| WireFrames.TextFrameLayout | src-tauri/src/transactions/websocket.rs:56-71 | a status frame ends in the status and a NUL; an error frame in the message, a NUL and the JSON data |
| WireFrames.JsonRoundTrip | src-tauri/src/transactions/websocket.rs:38-45 | a written JSON value reads back, leaving what follows it |
| WireFrames.DecodeEncode | src-tauri/src/transactions/websocket.rs:47-85 | every frame whose texts hold no NUL decodes back to its message |
| WireFrames.JsonFrameDecodes | src-tauri/src/transactions/websocket.rs:51-55 | finished and data frames decode back to their message |
| WireFrames.ErrorFrameDecodes | src-tauri/src/transactions/websocket.rs:56-61 | error frames decode back to their message |
| WireFrames.StatusFrameDecodes | src-tauri/src/transactions/websocket.rs:67-71 | status frames decode back to their message |
| WireFrames.ProgressFrameDecodes | src-tauri/src/transactions/websocket.rs:72-81 | progress frames decode back to their message |
| WireFrames.EncodeInjective | src-tauri/src/transactions/websocket.rs:47-85 | two messages with the same frame are the same message |
| WireFrames.CancelBranchAsWritten | src-tauri/src/transactions/websocket.rs:160-169 | the branch behind the prefix check panics exactly on a frame shorter than 9 bytes and never cancels: its 8-byte slice never converts to a `u32` |
| WireFrames.CancelCheckNeverFires | src-tauri/src/transactions/websocket.rs:158-170 | as written, every binary message is ignored, none cancels and none panics, because the empty slice never equals the prefix; the well-formed 5-byte cancel frame would panic in the branch behind it |
| WireFrames.CancelFrameRoundTrip | src-tauri/src/transactions/websocket.rs:158-170 | corrected: a cancel frame is read as a request for its id, frames without the prefix byte are ignored, and a request read back re-encodes to the frame's first five bytes |
| TransactionRegistry.ProgressAsInt | src-tauri/src/transactions/mod.rs:85-87 | progress becomes hundredths of a percent: at most 10000, 0 at or below 0, 10000 at or above 1, and truncated toward zero in between |
| TransactionRegistry.TransactionInner.constructor | src-tauri/src/transactions/mod.rs:194-197 | a new handle has its id and is not aborted |
| TransactionRegistry.TransactionInner.Abort | src-tauri/src/transactions/mod.rs:106-116 | sets the aborted flag and removes exactly this id from the sorted registry |
| TransactionRegistry.TransactionInner.Data | src-tauri/src/transactions/mod.rs:118-120 | sends a data message for this id |
| TransactionRegistry.TransactionInner.Status | src-tauri/src/transactions/mod.rs:122-124 | sends a status message for this id |
| TransactionRegistry.TransactionInner.Progress | src-tauri/src/transactions/mod.rs:126-132 | sends the progress as an integer, and nothing once aborted |
| TransactionRegistry.TransactionInner.ProgressIncr | src-tauri/src/transactions/mod.rs:134-140 | sends the increment as an integer, and nothing once aborted |
| TransactionRegistry.TransactionInner.Error | src-tauri/src/transactions/mod.rs:150-153 | aborts, removes the id from the registry, then sends the error |
| TransactionRegistry.TransactionInner.Finished | src-tauri/src/transactions/mod.rs:155-159 | aborts, removes the id from the registry, then sends the result |
| TransactionRegistry.TransactionInner.Cancel | src-tauri/src/transactions/mod.rs:161-163 | aborts and removes the id, sending nothing |
| TransactionRegistry.TransactionInner.Drop | src-tauri/src/transactions/mod.rs:169-179 | a handle dropped before it was aborted sends ERR_UNKNOWN and leaves the registry; an aborted one changes nothing |
| TransactionRegistry.Transactions.constructor | src-tauri/src/transactions/mod.rs:33-39 | the registry starts empty, its counter at 0 |
| TransactionRegistry.Transactions.Emit | src-tauri/src/transactions/mod.rs:96-104 | a message is sent (over the websocket or as a webview event), and not at all in command-line mode |
| TransactionRegistry.Transactions.Find | src-tauri/src/transactions/mod.rs:41-54 | finds a handle exactly when its id is registered; the handle found has that id and is live |
| TransactionRegistry.Transactions.RemoveId | src-tauri/src/transactions/mod.rs:108-115 | removes the entry with the id, if any, keeping the others in order |
| TransactionRegistry.Transactions.New | src-tauri/src/transactions/mod.rs:193-209 | the new handle takes the counter's value; it is appended, and the counter wraps at 2^32; the registry stays sorted while the counter has not wrapped |
| TransactionRegistry.UniqueIds | src-tauri/src/transactions/mod.rs:43 | a registry sorted without repeats has at most one entry per id |
| TransactionRegistry.CancelTransaction | src-tauri/src/transactions/mod.rs:218-223 | cancelling an id aborts its handle, removes it, and sends nothing |
| TransactionRegistry.WithoutIdMember | src-tauri/src/transactions/mod.rs:108-115 | removal keeps exactly the entries with another id |
| TransactionRegistry.WithoutIdAppend | src-tauri/src/transactions/mod.rs:108-115 | removal distributes over concatenation |
| TransactionRegistry.WithoutIdTwice | src-tauri/src/transactions/mod.rs:169-179 | removing the same id twice is the same as once |
| TransactionRegistry.WithoutIdAbsent | src-tauri/src/transactions/mod.rs:108-115 | removing an id that is not there changes nothing |
| TransactionRegistry.NotInIds | src-tauri/src/transactions/mod.rs:41-54 | an id missing from the id list is held by no entry |
| TransactionRegistry.WithoutIdAt | src-tauri/src/transactions/mod.rs:110-112 | in a registry sorted without repeats, removing by binary search removes only the entry found |
| LegacyTransactions.Transaction.constructor | src-tauri/src/transactions.rs:165-168 | a new handle has its id and is not aborted |
| LegacyTransactions.Transaction.Abort | src-tauri/src/transactions.rs:91-101 | sets the aborted flag and removes exactly this id from the sorted registry |
| LegacyTransactions.Transaction.Data | src-tauri/src/transactions.rs:103-105 | emits a TransactionData event with the id |
| LegacyTransactions.Transaction.Status | src-tauri/src/transactions.rs:107-109 | emits a TransactionStatus event with the id |
| LegacyTransactions.Transaction.Progress | src-tauri/src/transactions.rs:111-117 | emits the progress as an integer, and nothing once aborted |
| LegacyTransactions.Transaction.ProgressIncr | src-tauri/src/transactions.rs:119-125 | emits the increment as an integer, and nothing once aborted |
| LegacyTransactions.Transaction.Error | src-tauri/src/transactions.rs:127-129 | emits the error and does not abort |
| LegacyTransactions.Transaction.Finished | src-tauri/src/transactions.rs:131-135 | aborts, removes the id, then emits the result |
| LegacyTransactions.Transaction.Cancel | src-tauri/src/transactions.rs:137-139 | aborts and removes the id, emitting nothing |
| LegacyTransactions.Transaction.Drop | src-tauri/src/transactions.rs:145-152 | a handle dropped before it was aborted emits ERR_UNKNOWN and leaves the registry |
| LegacyTransactions.Registry.constructor | src-tauri/src/transactions.rs:25-30 | the registry starts empty, its counter at 0 |
| LegacyTransactions.Registry.Emit | src-tauri/src/transactions.rs:87-89 | an event goes to the webview |
| LegacyTransactions.Registry.Find | src-tauri/src/transactions.rs:32-45 | finds a handle exactly when its id is registered; the handle found has that id and is live |
| LegacyTransactions.Registry.RemoveId | src-tauri/src/transactions.rs:95-100 | removes the entry with the id, if any, keeping the others in order |
| LegacyTransactions.Registry.New | src-tauri/src/transactions.rs:162-180 | the new handle takes the counter's value and is appended; the registry stays sorted |
| LegacyTransactions.CancelTransaction | src-tauri/src/transactions.rs:182-187 | cancelling an id aborts its handle and removes it |
| LegacyTransactions.WithoutIdMember | src-tauri/src/transactions.rs:95-100 | removal keeps exactly the entries with another id |
| LegacyTransactions.WithoutIdAppend | src-tauri/src/transactions.rs:95-100 | removal distributes over concatenation |
| LegacyTransactions.WithoutIdAbsent | src-tauri/src/transactions.rs:95-100 | removing an id that is not there changes nothing |
| LegacyTransactions.NotInIds | src-tauri/src/transactions.rs:32-45 | an id missing from the id list is held by no entry |
| LegacyTransactions.KeptBefore | src-tauri/src/transactions.rs:97-98 | in a sorted registry, the entries before the one found keep their place |
| LegacyTransactions.KeptAfter | src-tauri/src/transactions.rs:97-98 | in a sorted registry, the entries after the one found keep their place |
| LegacyTransactions.WithoutIdAt | src-tauri/src/transactions.rs:97-98 | removing by binary search removes only the entry found |
| FrontendTransactions.TasksMax | app/transactions.js:9-20 | the task list holds at least two entries, and otherwise the window height times 196/1027 over 49, rounded to the nearest whole number |
| FrontendTransactions.EmitDelivers | app/transactions.js:77-86 | with no listener an event is kept as unconsumed; otherwise every listener receives it once, in order, and nothing else receives anything |
| FrontendTransactions.FirstListenReplays | app/transactions.js:65-75 | the first listener receives every unconsumed event, in order |
| FrontendTransactions.LaterListenGetsNoHistory | app/transactions.js:68-72 | a later listener receives none of the earlier events |
| FrontendTransactions.ObserversSeeEventsSinceAttach | app/transactions.js:65-86 | after any sequence of listens and emits: before the first listener every event is kept unconsumed; the first listener has received every event; each later one has received exactly the events emitted after it was attached |
| FrontendTransactions.EmitKeepsSeen | app/transactions.js:77-86 | an emit keeps the property above |
| FrontendTransactions.ListenKeepsSeen | app/transactions.js:65-75 | a listen keeps the property above |
| FrontendTransactions.ReceivedAppend | app/transactions.js:81-83 | what one listener has received from two runs of deliveries is what it received from each, in order |
| FrontendTransactions.ReceivedFanOut | app/transactions.js:81-83 | delivering to every listener gives each one the event once |
| FrontendTransactions.ReceivedReplay | app/transactions.js:69-71 | the replay on listen reaches the new listener only |
| FrontendTransactions.CancelOnce | app/transactions.js:88-102 | cancelling a finished or cancelled transaction changes nothing; otherwise it marks it cancelled and emits one cancelled event; cancelling twice is cancelling once |
| FrontendTransactions.FinishEmitsFullProgressFirst | app/transactions.js:104-114 | finishing marks the transaction finished; progress below 100% is raised to 100% and emitted first; then the finished event goes to the buffer or to every listener |
| FrontendTransactions.FinishAfterCancelStillEmits | app/transactions.js:104-114 | a cancelled transaction that then finishes is both cancelled and finished, and its last event is the finished one |
| FrontendTransactions.SetProgressOnChange | app/transactions.js:136-143 | the same progress changes nothing; a new one is emitted and stored, and can go backwards |
| FrontendTransactions.HandleDeregisters | app/transactions.js:166-200 | handling an event removes the transaction from the registry exactly when it is a finish, an error on a transaction that has not had one, or a cancel of a live transaction |
| FrontendTransactions.ReplayAfterDeregistered | app/transactions.js:26-37 | once replay has removed the transaction, the queued events that follow do nothing |
| FrontendTransactions.ReplayAllAppend | app/transactions.js:26-37 | replaying two runs of queued events is replaying one after the other |
| FrontendTransactions.ReplaySnoc | app/transactions.js:26-37 | replaying one more queued event is one more step |
| FrontendTransactions.QueuePartition | app/transactions.js:26-37 | the events replayed for an id and the events kept in the queue together are the old queue |
| FrontendTransactions.QueuePartitionIds | app/transactions.js:30 | the replayed events all carry the id and the kept ones all carry another id |
| FrontendTransactions.OrphanIdsAppend | app/transactions.js:160-161 | the ids queued in two runs of the queue are the ids of each |
| FrontendTransactions.OthersIds | app/transactions.js:55-58 | after the replay for an id, that id is no longer queued and the other queued ids stay |
| FrontendTransactions.NoMatching | app/transactions.js:55-58 | an id with nothing queued replays nothing and leaves the queue as it is |
| FrontendTransactions.QueueStep | app/transactions.js:28-35 | one pass of the orphan loop: a matching event is spliced out and fired, any other is skipped |
| FrontendTransactions.ScanDone | app/transactions.js:28-36 | when the orphan loop ends, the queue holds the other ids' events and every matching event has been fired in order |
| FrontendTransactions.Transaction.constructor | app/transactions.js:43-48 | a new transaction has its id, no listeners, no progress, and is neither finished nor cancelled |
| FrontendTransactions.Transaction.Emit | app/transactions.js:77-86 | the state is the emit step of the old state |
| FrontendTransactions.Transaction.Listen | app/transactions.js:65-75 | the state is the listen step of the old state |
| FrontendTransactions.Transaction.Cancel | app/transactions.js:88-102 | a finished or cancelled transaction is left alone; otherwise it is cancelled, leaves the registry, and the backend is asked to cancel unless the request came from it |
| FrontendTransactions.Transaction.Finish | app/transactions.js:104-114 | the state is the finish step and the transaction leaves the registry |
| FrontendTransactions.Transaction.Error | app/transactions.js:116-122 | the first error is emitted and deregisters the transaction; because it overwrites the method, a second call throws and changes nothing |
| FrontendTransactions.Transaction.Data | app/transactions.js:124-127 | emits a stream event with the data |
| FrontendTransactions.Transaction.SetStatus | app/transactions.js:129-134 | stores the status and emits it |
| FrontendTransactions.Transaction.SetProgress | app/transactions.js:136-143 | the state is the progress step of the old state |
| FrontendTransactions.Session.constructor | app/transactions.js:5-24 | no transactions, no orphans, no tasks, and the task limit computed from the window height |
| FrontendTransactions.Session.Get | app/transactions.js:61-63 | a transaction is found exactly when its id is registered |
| FrontendTransactions.Session.Resize | app/transactions.js:13-21 | the task limit follows the new window height |
| FrontendTransactions.Session.Fire | app/transactions.js:147-149 | an event for a registered id takes its handler's step, and the transaction leaves the registry when the step says so; an unregistered id changes nothing |
| FrontendTransactions.Session.Dispatch | app/transactions.js:150-164 | an event for an unregistered id is queued and its id marked orphaned; otherwise it is handled at once |
| FrontendTransactions.Session.CheckOrphanQueue | app/transactions.js:26-37 | the queue keeps the other ids' events, and the transaction has taken every queued event for its id in arrival order |
| FrontendTransactions.Session.FireQueued | app/transactions.js:30-32 | firing one queued payload at its handle takes the handle one dispatch step and keeps the registry consistent |
| FrontendTransactions.Session.Register | app/transactions.js:50-53 | the transaction replaces any earlier registration for its id and joins the task list when it has a status text |
| FrontendTransactions.Session.Construct | app/transactions.js:40-59 | without an id nothing happens; otherwise a fresh transaction is registered and takes the events already queued for its id, in order |
| Whitelist.Globber | src-tauri/src/gma/whitelist.rs:102-145 | the pointer-walking matcher answers exactly whether the glob before its NUL matches the text before its NUL, where `*` matches any run of bytes and `?` any one byte |
| Whitelist.StarPhase | src-tauri/src/gma/whitelist.rs:122-144 | from the first `*` on, the backtracking loop gives the answer of the recursive match |
| Whitelist.TrailingStars | src-tauri/src/gma/whitelist.rs:140-144 | once the text is used up, the glob matches exactly when only stars remain |
| Whitelist.ScanStar | src-tauri/src/gma/whitelist.rs:123-130 | a star at the end of the glob settles the match; otherwise it records the new restart point and keeps the loop invariant |
| Whitelist.ScanLiteral | src-tauri/src/gma/whitelist.rs:130-132 | a matching byte or `?` advances both sides and keeps the loop invariant |
| Whitelist.ScanBacktrack | src-tauri/src/gma/whitelist.rs:133-137 | a mismatch can only happen after a star, and retrying one byte later keeps the loop invariant |
| Whitelist.ScanEnd | src-tauri/src/gma/whitelist.rs:140-144 | at the end of the text the answer is whether only stars remain |
| Whitelist.UpToNulFacts | src-tauri/src/gma/whitelist.rs:103-106 | the text before the first NUL is a NUL-free prefix followed by a NUL |
| Whitelist.UpToNulOfTerminated | src-tauri/src/gma/whitelist.rs:148-149 | appending a NUL to NUL-free text and reading up to it gives the text back |
| Whitelist.EmptyText | src-tauri/src/gma/whitelist.rs:140-143 | a glob matches empty text exactly when it is all stars |
| Whitelist.StarIsAnySuffix | src-tauri/src/gma/whitelist.rs:123-129 | a leading star matches exactly when the rest matches some suffix of the text |
| Whitelist.LiteralPrefix | src-tauri/src/gma/whitelist.rs:114-120 | a star-free prefix of the glob consumes as many bytes of the text |
| Whitelist.StarForward | src-tauri/src/gma/whitelist.rs:122-138 | after a star, a star-free run of the glob must match at some later place |
| Whitelist.AnyGlobMatches | src-tauri/src/gma/whitelist.rs:147-188 | the loop over a glob list answers whether any glob matches the text |
| Whitelist.Check | src-tauri/src/gma/whitelist.rs:147-158 | a path is allowed exactly when some glob of the addon whitelist matches it |
| Whitelist.FilterDefaultIgnored | src-tauri/src/gma/whitelist.rs:160-171 | a path is kept exactly when no default ignore glob matches it |
| Whitelist.IsIgnored | src-tauri/src/gma/whitelist.rs:173-188 | an empty ignore list ignores nothing; otherwise a path is ignored exactly when some glob matches it |
| Whitelist.FilledGlobMatches | src-tauri/src/gma/whitelist.rs:218-224 | a glob with each star replaced by any star-free text matches that text |
| Whitelist.WhitelistAcceptsFilledGlobs | src-tauri/src/gma/whitelist.rs:218-224 | every whitelist glob with its stars filled in is accepted |
| Whitelist.StarMatchesAnyRun | src-tauri/src/gma/whitelist.rs:123-129 | a lone star matches every text |
| Whitelist.QuestionMatchesOneByte | src-tauri/src/gma/whitelist.rs:115 | a lone `?` matches exactly the one-byte texts |
| Whitelist.LiteralMatchesItself | src-tauri/src/gma/whitelist.rs:115-116 | a plain byte matches only itself |
| Whitelist.LiteralGlobMatchesItself | src-tauri/src/gma/whitelist.rs:261 | a glob without stars matches itself |
| Whitelist.EndsWithLiteral | src-tauri/src/gma/whitelist.rs:203-212 | a glob ending in a plain byte only matches text ending in that byte |
| Whitelist.TrailingStarsKeepMatch | src-tauri/src/gma/whitelist.rs:140-143 | adding stars at the end of a matching glob keeps the match |
| Whitelist.MatchConcat | src-tauri/src/gma/whitelist.rs:102-145 | two matches side by side give a match of the concatenation |
| Whitelist.OneStarMatches | src-tauri/src/gma/whitelist.rs:102-145 | `a*b` matches `a x b` for star-free `a` and `b` |
| Whitelist.TwoStarsMatch | src-tauri/src/gma/whitelist.rs:102-145 | `a*b*c` matches `a x b y c` for star-free `a`, `b` and `c` |
| Whitelist.MatchesAnyAt | src-tauri/src/gma/whitelist.rs:153-157 | one matching glob is enough for the list to match |
| Whitelist.WhitelistAcceptsLuaFile | src-tauri/src/gma/whitelist.rs:193 | `lua/test.lua` is allowed |
| Whitelist.WhitelistAcceptsNestedLuaFile | src-tauri/src/gma/whitelist.rs:194 | `lua/lol/test.lua` is allowed |
| Whitelist.WhitelistAcceptsLuaUnderLua | src-tauri/src/gma/whitelist.rs:195 | `lua/lua/testing.lua` is allowed |
| Whitelist.WhitelistAcceptsGamemodeText | src-tauri/src/gma/whitelist.rs:196 | `gamemodes/test/something.txt` is allowed |
| Whitelist.WhitelistAcceptsMaterial | src-tauri/src/gma/whitelist.rs:198 | `materials/lol.jpeg` is allowed |
| Whitelist.DefaultIgnoresGitFile | src-tauri/src/gma/whitelist.rs:234 | `.git/index` is ignored by default |
| Whitelist.DefaultIgnoresPsd | src-tauri/src/gma/whitelist.rs:245 | `some/location/blah.psd` is ignored by default |
| Whitelist.DefaultIgnoresAddonJson | src-tauri/src/gma/whitelist.rs:249 | `addon.json` is ignored by default |
| Whitelist.UserIgnoresLiteral | src-tauri/src/gma/whitelist.rs:261 | the ignore glob `lol.txt` ignores `lol.txt` |
| Whitelist.UserIgnoresLuaFiles | src-tauri/src/gma/whitelist.rs:262 | the ignore glob `lua/*.lua` ignores `lua/hello.lua` |
| Whitelist.UserIgnoresLuaFolder | src-tauri/src/gma/whitelist.rs:263 | the ignore glob `lua/*` ignores `lua/hello.lua` |
| EscapeJson.EscapeSingleQuotedJson | src-tauri/src/util/escape_json.rs:3-20 | the in-place loop leaves exactly the escaped text: a backslash before every backslash and single quote |
| EscapeJson.EscapeStep | src-tauri/src/util/escape_json.rs:7-17 | one pass of the loop: a special byte gets a backslash inserted before it and both are skipped, any other byte is skipped |
| EscapeJson.EscapedAppend | src-tauri/src/util/escape_json.rs:3-20 | escaping distributes over concatenation |
| EscapeJson.EscapedCons | src-tauri/src/util/escape_json.rs:9-15 | escaping a byte then the rest is escaping the whole |
| EscapeJson.EscapedLength | src-tauri/src/util/escape_json.rs:11-12 | the escaped text is longer by the number of backslashes and single quotes |
| EscapeJson.EscapedUnchanged | src-tauri/src/util/escape_json.rs:14 | text with neither character is left as it is |
| EscapeJson.ReplaceAppend | src-tauri/src/util/escape_json.rs:28 | `replace` distributes over concatenation |
| EscapeJson.ReplaceAbsent | src-tauri/src/util/escape_json.rs:28 | replacing a byte that does not occur changes nothing |
| EscapeJson.EscapedIsDoubleReplace | src-tauri/src/util/escape_json.rs:28-33 | escaping equals replacing backslashes by two and then single quotes by backslash-quote, the reference the test compares with |
| EscapeJson.UnescapeEscaped | src-tauri/src/util/escape_json.rs:3-20 | dropping each escaping backslash gives the original text back |
| EscapeJson.EscapedInjective | src-tauri/src/util/escape_json.rs:3-20 | two texts with the same escaping are the same text |
| EscapeJson.EscapedScalar | src-tauri/src/util/escape_json.rs:18 | one escaped UTF-8 scalar is well-formed |
| EscapeJson.EscapedKeepsUtf8 | src-tauri/src/util/escape_json.rs:18 | escaping well-formed UTF-8 gives well-formed UTF-8 |
| DedupUnsorted.DedupInPlace | src-tauri/src/util/dedup_unsorted.rs:4-35 | the vector ends holding each value once, where it first occurred, in the original order, for every length |
| DedupUnsorted.RemoveRepeats | src-tauri/src/util/dedup_unsorted.rs:24-34 | the loop with the set of values seen removes exactly the later repeats |
| DedupUnsorted.DedupStep | src-tauri/src/util/dedup_unsorted.rs:27-33 | one more element is dropped if seen before and kept otherwise |
| DedupUnsorted.DedupSameValues | src-tauri/src/util/dedup_unsorted.rs:4-35 | no value is lost or invented |
| DedupUnsorted.DedupDistinct | src-tauri/src/util/dedup_unsorted.rs:4-35 | the result has no repeats |
| DedupUnsorted.FirstIndex | src-tauri/src/util/dedup_unsorted.rs:28 | the first position of a value holds it and nothing before holds it |
| DedupUnsorted.DedupKeepsFirstOccurrenceOrder | src-tauri/src/util/dedup_unsorted.rs:4-35 | the kept values appear in the order of their first occurrences |
| DedupUnsorted.DedupOfDistinct | src-tauri/src/util/dedup_unsorted.rs:4-35 | a vector without repeats is left as it is |
| DedupUnsorted.DedupIdempotent | src-tauri/src/util/dedup_unsorted.rs:4-35 | de-duplicating twice is de-duplicating once |
| DedupUnsorted.ShortVectors | src-tauri/src/util/dedup_unsorted.rs:20-24 | one element stays; two equal elements become one, two different stay |
| GmaStream.LEAtReads | src-tauri/src/lib/gma/read.rs:37-38 | a little-endian number stored at a position reads back as itself, and the cursor moves past it |
| GmaStream.UpToNulInclTerminated | src-tauri/src/lib/gma/read.rs:14-16 | reading up to a NUL after NUL-free text gives that text and the NUL |
| GmaStream.UpToNulInclShape | src-tauri/src/lib/gma/read.rs:14-16 | `read_until` gives a prefix of the rest of the file that ends at its first NUL, or all of it when there is none |
| GmaStream.UntilNulFrom | src-tauri/src/lib/gma/read.rs:16 | the byte loop collects exactly what `read_until` reads from the position |
| GmaStream.ByteStream.constructor | src-tauri/src/lib/gma/read.rs:24 | a reader over the file starts at position 0 |
| GmaStream.ByteStream.ReadExact | src-tauri/src/lib/gma/read.rs:70-71 | with enough bytes left it returns the next n and advances by n; otherwise it fails having consumed the rest |
| GmaStream.ByteStream.ReadLE | src-tauri/src/lib/gma/read.rs:37-38 | returns the little-endian number at the cursor and advances past it, or fails at the end of the file |
| GmaStream.ByteStream.ReadUntilNul | src-tauri/src/lib/gma/read.rs:14-16 | returns the bytes up to and including the next NUL and advances past them |
| GmaStream.ByteStream.Skip | src-tauri/src/lib/gma/read.rs:74-76 | skips n bytes, or the rest of the file when fewer remain, and returns how many |
| GmaStream.ByteStream.Seek | src-tauri/src/gma/read.rs:136 | the cursor moves to the position given |
| GmaStream.ByteWriter.Write | src-tauri/src/lib/gma/write.rs:18-46 | the bytes are appended to the output |
| GmaLibRead.NtStringAt | src-tauri/src/lib/gma/read.rs:14-22 | a string read ends after its terminator, inside the file |
| GmaLibRead.EntryAt | src-tauri/src/lib/gma/read.rs:54-63 | an entry read has no contents yet and ends inside the file |
| GmaLibRead.ReadNtString | src-tauri/src/lib/gma/read.rs:14-22 | the method gives the string and position the format says, and panics exactly when it does |
| GmaLibRead.ReadNumber | src-tauri/src/lib/gma/read.rs:37-38 | a number read gives the value and position the format says, and panics exactly at the end of the file |
| GmaLibRead.SkipRequiredStrings | src-tauri/src/lib/gma/read.rs:40-43 | the loop skips the required-content strings through the first empty one, as the format says |
| GmaLibRead.ReadEntry | src-tauri/src/lib/gma/read.rs:54-63 | the loop body reads name, size and crc as the format says |
| GmaLibRead.ReadEntryTable | src-tauri/src/lib/gma/read.rs:51-65 | the table loop reads entries while the index is not zero, as the format says |
| GmaLibRead.ReadEntryContents | src-tauri/src/lib/gma/read.rs:69-77 | one entry's contents are read into it, or skipped, as the format says |
| GmaLibRead.ReadContents | src-tauri/src/lib/gma/read.rs:68-78 | the contents loop fills or skips every entry in order, as the format says |
| GmaLibRead.ReadGma | src-tauri/src/lib/gma/read.rs:24-95 | `read_gma` gives the parse of the whole file: panic, error or the addon |
| GmaLibRead.ReadAddon | src-tauri/src/lib/gma/read.rs:40-94 | everything after the header is read as the format says |
| GmaLibRead.ReadsUpToTerminator | src-tauri/src/lib/gma/read.rs:14-16 | text followed by a NUL is read up to that NUL |
| GmaLibRead.NtStringReads | src-tauri/src/lib/gma/read.rs:14-22 | UTF-8 text without a NUL, stored with its terminator, reads back as itself |
| GmaLibRead.SkipRequiredReads | src-tauri/src/lib/gma/read.rs:40-43 | non-empty required strings followed by an empty one are all skipped |
| GmaLibRead.ParseGmaErrors | src-tauri/src/lib/gma/read.rs:25-35 | a wrong magic gives InvalidHeader, a right magic with a wrong version UnsupportedVersion, and a parsed file passed both checks |
| GmaLibRead.EntryTableNoContents | src-tauri/src/lib/gma/read.rs:53-65 | entries taken from the table have no contents |
| GmaLibRead.ContentsFill | src-tauri/src/lib/gma/read.rs:68-78 | the contents loop keeps every entry, adding `size` bytes of contents to each when asked to |
| GmaLibRead.ParsedContents | src-tauri/src/lib/gma/read.rs:24-95 | every entry of a parsed file has exactly `size` bytes of contents when they are read, and none otherwise |
| GmaLibRead.AddonContents | src-tauri/src/lib/gma/read.rs:67-78 | every entry parsed after the header carries contents of exactly its size when contents are read, and none otherwise |
| GmaLibWrite.AuthorText | src-tauri/src/lib/gma/write.rs:30 | the fixed author text is NUL-free UTF-8 |
| GmaLibWrite.FixedFields | src-tauri/src/lib/gma/write.rs:21-46 | the constant fields are the little-endian encodings of 0 and 1 |
| GmaLibWrite.FirstBadName | src-tauri/src/lib/gma/write.rs:34-39 | the first entry whose name holds a NUL, or the number of entries |
| GmaLibWrite.FirstMissing | src-tauri/src/lib/gma/write.rs:43-45 | the first entry without contents, or the number of entries |
| GmaLibWrite.WriteCStr | src-tauri/src/lib/gma/write.rs:8-14 | text without a NUL is written with a terminator; text with one is refused and nothing is written |
| GmaLibWrite.WriteGma | src-tauri/src/lib/gma/write.rs:17-49 | the result and the bytes written are those of the write specification, including where a bad name or missing contents stops it |
| GmaLibWrite.WriteHeader | src-tauri/src/lib/gma/write.rs:18-25 | writes magic, version, a zero steam id, the timestamp and the empty required-content list |
| GmaLibWrite.WriteRecord | src-tauri/src/lib/gma/write.rs:35-38 | writes index, name, size and a zero crc, or stops after the index on a name with a NUL |
| GmaLibWrite.WriteTable | src-tauri/src/lib/gma/write.rs:34-46 | writes the table, its terminator, the contents and the closing zero, or stops where the specification says |
| GmaLibWrite.WriteRecords | src-tauri/src/lib/gma/write.rs:34-39 | writes every record up to the first bad name |
| GmaLibWrite.WriteContents | src-tauri/src/lib/gma/write.rs:43-45 | writes every entry's contents up to the first one missing, which panics |
| GmaLibWrite.FirstBadNameAt | src-tauri/src/lib/gma/write.rs:34-39 | the first bad name is at the position where every earlier name is good |
| GmaLibWrite.FirstMissingAt | src-tauri/src/lib/gma/write.rs:43-45 | the first missing contents are at the position where every earlier entry has them |
| GmaRoundTrip.WriteThenRead | src-tauri/src/lib/gma/write.rs:17-49 | a file with NUL-free UTF-8 names, full contents and fewer than 2^32 - 1 entries is written in full and reads back with its name, description, the fixed author and every entry in order: name, size, zero crc, and contents when asked for |
| GmaRoundTrip.WrittenInFull | src-tauri/src/lib/gma/write.rs:17-49 | such a file is written without error, as header, strings and body |
| GmaRoundTrip.HeaderChecks | src-tauri/src/lib/gma/read.rs:25-35 | the written header passes the magic and version checks |
| GmaRoundTrip.HeaderSkips | src-tauri/src/lib/gma/read.rs:40-43 | the single zero byte written for required content is skipped as the empty list |
| GmaRoundTrip.EntryTableReads | src-tauri/src/lib/gma/read.rs:53-65 | the written entry table reads back as the entries without contents, ending at the zero index |
| GmaRoundTrip.ContentsReads | src-tauri/src/lib/gma/read.rs:68-78 | the written contents read back into each entry, in order |
| GmaRoundTrip.RecordReads | src-tauri/src/lib/gma/read.rs:53-63 | a written record reads back as its index and its entry |
| GmaRoundTrip.EntryFieldsRead | src-tauri/src/lib/gma/read.rs:54-56 | a written name, size and crc read back |
| GmaRoundTrip.IndexValue | src-tauri/src/lib/gma/write.rs:35 | the index of entry i is 1 + i, never 0 while there are fewer than 2^32 - 1 entries |
| GmaRoundTrip.BodyReads | src-tauri/src/lib/gma/read.rs:51-78 | the written body reads back as every entry, in order |
| GmaRoundTrip.AddonReads | src-tauri/src/lib/gma/read.rs:45-94 | everything after the header reads back as the addon |
| GmaRoundTrip.NameReads | src-tauri/src/lib/gma/read.rs:45-46 | the written name and description read back |
| GmaRoundTrip.AuthorReads | src-tauri/src/lib/gma/read.rs:47-49 | the fixed author and the addon version read back |
| GmaRead.NumberAt | src-tauri/src/gma/read.rs:8-15 | a number read fits its width and ends n bytes on; a short read is a FormatError |
| GmaRead.TextAt | src-tauri/src/gma/read.rs:57 | a string read is NUL-free and ends inside the file; a failure is a FormatError |
| GmaRead.RecordAt | src-tauri/src/gma/read.rs:105-107 | an entry record read ends inside the file |
| GmaRead.WrapAdd | src-tauri/src/gma/read.rs:116 | the entry cursor is a `u64` and its sum stays below 2^64 |
| GmaRead.WrapAddMod | src-tauri/src/gma/read.rs:116 | adding to a wrapped cursor is wrapping the full sum |
| GmaRead.EntryListStops | src-tauri/src/gma/read.rs:104 | a short read of the index ends the list with its error |
| GmaRead.EntryListEnds | src-tauri/src/gma/read.rs:104 | a zero index ends the list with the entries read so far |
| GmaRead.EntryListFails | src-tauri/src/gma/read.rs:105-107 | a broken record ends the list with its error |
| GmaRead.EntryListStep | src-tauri/src/gma/read.rs:104-119 | a non-zero index and a good record add one entry at the current cursor |
| GmaRead.ListedStep | src-tauri/src/gma/read.rs:104-119 | one pass of the entry loop keeps its invariant: entries, the path map and the cursor agree with the list read so far |
| GmaRead.PathIndexFinds | src-tauri/src/gma/read.rs:119 | the path map holds every entry's path and maps it to the last entry with that path |
| GmaRead.EntryListOffsets | src-tauri/src/gma/read.rs:102-116 | every entry's index is the sum of the sizes before it, wrapping at 2^64 |
| GmaRead.EntryListAtOffsets | src-tauri/src/gma/read.rs:102-116 | the entry list read from the start has every index at its offset among the contents |
| GmaRead.ReadEntryMissing | src-tauri/src/gma/read.rs:132 | `read_entry` finds nothing exactly when no entry has the path |
| GmaRead.ReadEntryFromContents | src-tauri/src/gma/read.rs:131-142 | corrected: with the contents stored end to end after the entry list, the entry read is exactly that entry's contents |
| GmaRead.ReadEntryFromFound | src-tauri/src/gma/read.rs:136-141 | the read takes `size` bytes from the entry's offset, and panics when fewer remain |
| GmaRead.StoredEntry | src-tauri/src/gma/read.rs:136-139 | entry k's contents are the `size` bytes at the contents' start plus its index |
| GmaRead.ReadEntryAtIgnoresStart | src-tauri/src/gma/read.rs:136 | as written, the read seeks to the index as if the contents started at byte 0 |
| GmaRead.ReadEntryAtReadsHeader | src-tauri/src/gma/read.rs:136 | as written, a file whose one entry holds 1, 2, 3, 4 after a four-byte header reads back the header; the corrected read gives 1, 2, 3, 4 |
| GmaRead.ReadNumber | src-tauri/src/gma/read.rs:52-53 | the method gives the number and position the format says, or its error |
| GmaRead.ReadText | src-tauri/src/gma/read.rs:57 | the method gives the string and position the format says, or its error |
| GmaRead.ReadMetadata | src-tauri/src/gma/read.rs:52-83 | steam id, timestamp, required content, name, `addon.json`, author and version are read as the format says; a description that is not valid `addon.json` leaves tags, ignore and type empty |
| GmaRead.ReadRecord | src-tauri/src/gma/read.rs:105-107 | path, size and crc are read as the format says |
| GmaRead.ReadEntryList | src-tauri/src/gma/read.rs:100-124 | the loop reads the entry list as the format says, and the path map indexes it |
| GmaRead.LoadMetadata | src-tauri/src/gma/read.rs:46-83 | opening the file, seeking and reading the metadata give what the file says, or IOError when it cannot be opened |
| GmaRead.LoadEntryList | src-tauri/src/gma/read.rs:97-124 | seeking to the list and reading it give what the file says |
| GmaRead.LoadBytes | src-tauri/src/gma/read.rs:146-153 | a seek and an exact read give `size` bytes from the offset, or panic when fewer remain |
| GmaRead.CacheMetadata | src-tauri/src/gma/read.rs:45-90 | kept metadata is returned as it is; otherwise the file is read and a success is kept |
| GmaRead.CacheEntryList | src-tauri/src/gma/read.rs:92-124 | the entry list read from the cached start is what the file says |
| GmaRead.GmaFile.constructor | src-tauri/src/gma/read.rs:38-45 | a new handle has nothing parsed |
| GmaRead.UpdateExtractableName | src-tauri/src/gma/read.rs:39-43 | afterwards the cached name is present and matches the id state; a cache that already did is kept |
| GmaRead.UpdateExtractableNameSettles | src-tauri/src/gma/read.rs:39-43 | a second update changes nothing |
| GmaRead.GmaFile.Metadata | src-tauri/src/gma/read.rs:39-90 | the metadata is parsed once and then served from the cache; an error caches nothing; a first successful parse brings the extraction name up to date |
| GmaRead.GmaFile.Entries | src-tauri/src/gma/read.rs:92-129 | the entry list is parsed once (after the metadata, which panics when it fails) and then served from the cache |
| GmaRead.GmaFile.ReadEntry | src-tauri/src/gma/read.rs:131-142 | as written: panics before the entry list is loaded; otherwise reads at the entry's index from the start of the file |
| GmaRead.GmaFile.ReadEntryFixed | src-tauri/src/gma/read.rs:131-142 | corrected: reads at the entry's index from the start of the contents |
| GameAddons.GmaCheckAccepts | src-tauri/src/octopus/game_addons.rs:33-44 | an entry passes exactly when it was read, is a file and has a `gma` extension in any case; it gives the path and the file name without its last four characters |
| GameAddons.TrailingDigits | src-tauri/src/octopus/game_addons.rs:70-76 | the digits taken from the end of a name: a suffix of it, all digits, and not preceded by another digit |
| GameAddons.ParseAddonsDirId | src-tauri/src/octopus/game_addons.rs:67-92 | the digit loop with checked arithmetic gives the id the name's trailing digits spell, no id for none or zero, and skips the file when the arithmetic overflows |
| GameAddons.AddonsDirIdReadsSuffix | src-tauri/src/octopus/game_addons.rs:67-92 | a name ending in the decimal digits of n > 0 gives id n, unless ten times n overflows a `u64`, which skips the file |
| GameAddons.TrailingOfDigits | src-tauri/src/octopus/game_addons.rs:70-76 | the trailing digits of a name are the digit run it ends in |
| GameAddons.AddonsDirIdSkipsLargeId | src-tauri/src/octopus/game_addons.rs:78-84 | an id that fits a `u64` but not once multiplied by ten, such as 1844674407370955162, makes the file be skipped |
| GameAddons.ParseU64RoundTrip | src-tauri/src/octopus/game_addons.rs:104-107 | the decimal text of any `u64`, with or without a leading `+`, parses back to it |
| GameAddons.ParseU64Sound | src-tauri/src/octopus/game_addons.rs:104-107 | what parses is a `u64` spelled by the digits after an optional `+` |
| GameAddons.AddonsDirStep | src-tauri/src/octopus/game_addons.rs:67-92 | one directory entry sends the message the addons thread sends for it, if any |
| GameAddons.ScanAddonsDir | src-tauri/src/octopus/game_addons.rs:61-94 | an unreadable addons directory sends nothing; otherwise the messages for its entries, in order |
| GameAddons.ScanCacheDir | src-tauri/src/octopus/game_addons.rs:97-111 | an unreadable cache directory sends nothing; otherwise each GMA file with its name parsed as the id |
| GameAddons.AddonsDirMessagesSound | src-tauri/src/octopus/game_addons.rs:61-94 | every message sent is for a GMA file of the directory, and there are no more messages than entries |
| GameAddons.InterleaveKeepsAll | src-tauri/src/octopus/game_addons.rs:113-114 | however the two threads' messages interleave on the channel, all of them arrive |
| GameAddons.InsertByModified | src-tauri/src/octopus/game_addons.rs:123-124 | inserting at the position the binary search gives keeps the list ordered by time and adds exactly the addon |
| GameAddons.Collect | src-tauri/src/octopus/game_addons.rs:113-125 | the collected list is ordered by modification time and holds exactly the files that opened |
| GameAddons.InsertByTime | src-tauri/src/octopus/game_addons.rs:123-124 | one insertion keeps the order and adds exactly the addon |
| GameAddons.PathPos | src-tauri/src/octopus/game_addons.rs:129 | the first position holding the path, or the end |
| GameAddons.IndexInsertFacts | src-tauri/src/octopus/game_addons.rs:129 | `IndexMap::insert` keeps one entry per path, adds the path, and appends a new path at the end |
| GameAddons.IndexAllFacts | src-tauri/src/octopus/game_addons.rs:127-130 | the map holds every path once; a list without repeated paths is kept as it is, in order |
| GameAddons.BuildIndex | src-tauri/src/octopus/game_addons.rs:127-130 | the loop builds the map the insertions give |
| GameAddons.Insert | src-tauri/src/octopus/game_addons.rs:129 | replaces the value of a path already there in place, or appends a new one |
| GameAddons.Discover | src-tauri/src/octopus/game_addons.rs:52-133 | the addons found: each path once, exactly the paths that were sent and opened, and, when no path was sent twice, all of them ordered by modification time |
| GameAddons.IndexOfCollected | src-tauri/src/octopus/game_addons.rs:127-130 | indexing the collected list by path gives those facts |
| GameAddons.GameAddonsList.constructor | src-tauri/src/octopus/game_addons.rs:25-28 | the list starts empty |
| GameAddons.GameAddonsList.DiscoverAddons | src-tauri/src/octopus/game_addons.rs:46-134 | without a game directory the list is emptied; otherwise it becomes what discovery finds |
| GameAddons.GameAddonsList.Lookup | src-tauri/src/octopus/game_addons.rs:136-138 | finds the addon with the path, and nothing exactly when no addon has it |
| GameAddons.FindPath | src-tauri/src/octopus/game_addons.rs:136-138 | the addon found has the path; none is found exactly when the path is absent |
| GameAddons.UniqueUnderPermutation | src-tauri/src/octopus/game_addons.rs:127-130 | reordering a list without repeated paths keeps it without repeats |
| SearchIndex.MaxLength | src-tauri/src/search.rs:73 | the UTF-8 byte length (`str::len`) of every term is at most the result, one term attains it, and it is 0 for no terms |
| SearchIndex.NewItem | src-tauri/src/search.rs:68-79 | terms are a permutation of the given terms sorted by ascending byte length; `len` bounds the byte lengths of the caption and every term and is attained by one of them |
| SearchIndex.SearchItemOf | src-tauri/src/search.rs:96-150 | workshop items always give an item with their id and title; an installed addon gives none exactly when it has no metadata and an empty extracted name |
| SearchIndex.SearchItems | src-tauri/src/search.rs:261-272 | the items of the addons that give one, none of them a `WorkshopItem` source |
| SearchIndex.WithIds | src-tauri/src/search.rs:264-268 | keeps exactly the installed addons that carry a workshop id |
| SearchIndex.SameItemEquivalence | src-tauri/src/search.rs:51-65 | equality by install path or workshop id is reflexive, symmetric and transitive on the sources it handles |
| SearchIndex.CmpAsWrittenNotTransitive | src-tauri/src/search.rs:44-50 | comparing the two reversed orderings with each other gives x = y, y = w but x < w |
| SearchIndex.CmpIsKeyOrder | src-tauri/src/search.rs:44-50 | the intended order (newest first, then longest first) is the order of its key, antisymmetric and transitive |
| SearchIndex.BinarySearchRank | src-tauri/src/search.rs:238 | a hit has the same rank key; a miss gives the position with smaller keys before and larger keys after |
| SearchIndex.AddByRank | src-tauri/src/search.rs:237-245 | the result replaces the item with the same rank or inserts it in order, and stays sorted |
| SearchIndex.ReplaceAtRank | src-tauri/src/search.rs:239-241 | overwriting the found position keeps the list sorted and the other items |
| SearchIndex.InsertAtRank | src-tauri/src/search.rs:242-244 | inserting at the miss position keeps the list sorted and the other items |
| SearchIndex.ProbeAsWritten | src-tauri/src/search.rs:238 | the binary search under the as-written order reports a position inside the range |
| SearchIndex.AddAsWrittenLosesItem | src-tauri/src/search.rs:237-245 | under the as-written order adding a different item to a one-item index overwrites the first item |
| SearchIndex.AddById | src-tauri/src/search.rs:220-235 | an equal id is replaced, a new id is inserted in order; ids stay strictly increasing |
| SearchIndex.ReplaceAtId | src-tauri/src/search.rs:227-229 | overwriting the addon with the same id keeps the ids strictly increasing |
| SearchIndex.InsertAtId | src-tauri/src/search.rs:230-232 | inserting at the miss position keeps the ids strictly increasing |
| SearchIndex.CleanItemsSorted | src-tauri/src/search.rs:182-186 | after sort and dedup the items are sorted in the intended rank order, drawn from the old items, and every old item survives or has an equal one kept |
| SearchIndex.CleanInstalledStrict | src-tauri/src/search.rs:188-204 | after sort by id and dedup by id the ids are strictly increasing and every addon kept was there before |
| SearchIndex.StrictIdKeys | src-tauri/src/search.rs:197-203 | a list strictly sorted by id key has strictly increasing ids |
| SearchIndex.MaxOf | src-tauri/src/search.rs:297-314 | the largest score, present in the list, and none for no scores |
| SearchIndex.MaxOfSnoc | src-tauri/src/search.rs:310-312 | adding a score replaces the winner only when there was none or the new score is larger |
| SearchIndex.TermScoresSnoc | src-tauri/src/search.rs:305-309 | a term whose byte length is below the query's, or one that does not match, adds no score |
| SearchIndex.BestStep | src-tauri/src/search.rs:305-314 | one step of the term loop keeps the winner equal to the best score so far |
| SearchIndex.BestMatch | src-tauri/src/search.rs:297-314 | the winner is the best score of the caption and the terms at least as many bytes long as the query |
| SearchIndex.ShortItemHasNoScore | src-tauri/src/search.rs:293-295 | an item whose `len` is below the query's byte length has no score, so the early skip loses nothing |
| SearchIndex.WideCaptionIsScored | src-tauri/src/search.rs:299-303 | a two-character CJK caption is six bytes long, so it is scored against a four-letter query |
| SearchIndex.NoTermScores | src-tauri/src/search.rs:305-308 | terms all shorter than the query give no scores |
| SearchIndex.MatchesSound | src-tauri/src/search.rs:284-328 | every match is an item of the index paired with its best score |
| SearchIndex.MatchesPrefix | src-tauri/src/search.rs:284-328 | the matches of a prefix of the items are a prefix of all the matches |
| SearchIndex.MatchesSnoc | src-tauri/src/search.rs:316-324 | scanning one more item appends its match, if any |
| SearchIndex.Take | src-tauri/src/search.rs:18 | at most n elements, a prefix, and the whole list when it is short enough |
| SearchIndex.QuickResults | src-tauri/src/search.rs:280-353 | the results are the first ten matches sorted by descending score; `has_more` holds exactly when some item follows the tenth match, whether or not it matches |
| SearchIndex.SortSingle | src-tauri/src/search.rs:334-335 | one result is returned unsorted, as the sort would leave it |
| SearchIndex.QuickScanDone | src-tauri/src/search.rs:288-330 | when the scan stops, what was found is the first ten matches and `has_more` says whether some item follows the tenth match |
| SearchIndex.QuickResultsMeaning | src-tauri/src/search.rs:339-352 | at most ten results, scores descending, each an item of the index with its best score |
| SearchIndex.Search.constructor | src-tauri/src/search.rs:166-175 | an empty, clean index |
| SearchIndex.Search.Add | src-tauri/src/search.rs:207-248 | a dirty index appends; a clean one inserts by the intended rank and, for addons with an id, by id, keeping both lists sorted |
| SearchIndex.Search.AddBulk | src-tauri/src/search.rs:254-273 | appends all items, and the ones with an id to the installed list, and marks the index dirty |
| SearchIndex.Search.Clean | src-tauri/src/search.rs:177-205 | a dirty index is sorted in the intended rank order and deduplicated, a clean one is untouched; both lists end sorted |
| SearchIndex.Search.Quick | src-tauri/src/search.rs:275-354 | cleans the index, then returns the first ten matches in index order, by descending score, and whether some item follows the tenth match |
| SearchIndex.Search.Clear | src-tauri/src/search.rs:415-417 | empties the items and leaves the installed addons |
| Sorting.AppendSorted | src-tauri/src/search.rs:214-218 | appending an element no smaller than the rest keeps a list sorted |
| Sorting.InsertAt | src-tauri/src/search.rs:242-244 | inserting between the smaller and the greater keys keeps the order and adds exactly that element |
| Sorting.Insert | src-tauri/src/search.rs:70 | one step of the stable sort: the result is sorted and holds the old elements plus the new one |
| Sorting.SortBy | src-tauri/src/search.rs:339-350 | `sort_by` leaves a sorted permutation of its input |
| Sorting.InsertStable | src-tauri/src/search.rs:70 | inserting adds the element after its equals and leaves every other key's elements as they were |
| Sorting.SortByStable | src-tauri/src/search.rs:70 | `sort_by` keeps the elements that share a key in their input order |
| Sorting.Dedup | src-tauri/src/search.rs:185-203 | `dedup_by` keeps a subsequence, empty only for empty input, with no two neighbours the same |
| Sorting.DedupCovers | src-tauri/src/search.rs:185-203 | every element dropped equals one that is kept |
| Sorting.DedupSorted | src-tauri/src/search.rs:184-185 | deduplicating a sorted list leaves it sorted |
| Sorting.DedupByKeyStrict | src-tauri/src/search.rs:190-203 | sorted by key and deduplicated on equal keys, the keys strictly increase |
| LexSort.LexReflexive | src-tauri/src/steam/publishing.rs:501 | the string order is reflexive |
| LexSort.LexTotal | src-tauri/src/steam/publishing.rs:501 | the string order is total |
| LexSort.LexTransitive | src-tauri/src/steam/publishing.rs:501 | the string order is transitive |
| LexSort.LexAntisymmetric | src-tauri/src/steam/publishing.rs:501 | the string order is antisymmetric |
| LexSort.Insert | src-tauri/src/steam/publishing.rs:501 | one insertion step keeps the list sorted and adds exactly the string |
| LexSort.AppendSorted | src-tauri/src/steam/publishing.rs:501 | appending a string no smaller than the rest keeps the list sorted |
| LexSort.Sort | src-tauri/src/steam/publishing.rs:501 | `sort_unstable` leaves a sorted permutation of the failures |
| LexSort.SortedUnique | src-tauri/src/steam/publishing.rs:501 | two sorted arrangements of the same strings are equal, so the unstable sort has one outcome |
| LexSort.SortedTail | src-tauri/src/steam/publishing.rs:501 | dropping the least string of a sorted list leaves it sorted |
| LexSort.SameHead | src-tauri/src/steam/publishing.rs:501 | sorted lists of the same strings start with the same string |
| SortedSearch.BinarySearch | src-tauri/src/transactions/mod.rs:43 | a hit holds the key; a miss gives the insertion point, with smaller keys before and larger ones after |
| SortedSearch.InsertKeepsSorted | src-tauri/src/octopus/game_addons.rs:123-124 | inserting at the insertion point keeps the keys sorted, and strictly sorted if they were |
| SortedSearch.InsertBetweenKeepsSorted | src-tauri/src/octopus/game_addons.rs:123-124 | inserting between smaller-or-equal and greater-or-equal keys keeps them sorted and adds exactly that key |
| SortedSearch.RemoveKeepsSorted | src-tauri/src/transactions/mod.rs:112-114 | removing an element keeps the keys sorted, strictly if they were |
| Publishing.SplitJoin | src-tauri/src/steam/publishing.rs:37 | a non-empty list of paths without newlines is recovered from its `join("\n")` |
| Publishing.FindCode | src-tauri/src/steam/publishing.rs:36-48 | a hit is an error of the list with that code |
| Publishing.ErrorTextParses | src-tauri/src/steam/publishing.rs:34-50 | every error is read back from its `Display` text, so no two errors share a text (a whitelist report with at least one path, none holding a newline) |
| Publishing.ParsesBack | src-tauri/src/steam/publishing.rs:36-48 | `ERR_`, a code without `:`, and an optional `:` and detail decode to that code and detail |
| Publishing.CodeHasNoColon | src-tauri/src/steam/publishing.rs:36-48 | no error code holds a `:`, so the first `:` ends the code |
| Publishing.CodeDecodes | src-tauri/src/steam/publishing.rs:36-48 | each error's code and detail decode to that error |
| Publishing.DetailedCodeDecodes | src-tauri/src/steam/publishing.rs:37-47 | the errors written with a detail decode back |
| Publishing.PlainCodeDecodes | src-tauri/src/steam/publishing.rs:38-41 | the folder errors written without a detail decode back |
| Publishing.IconCodeDecodes | src-tauri/src/steam/publishing.rs:42-45 | the icon and I/O errors decode back |
| Publishing.FindCodeAt | src-tauri/src/steam/publishing.rs:36-48 | the lookup returns the first error with the code |
| Publishing.NewIcon | src-tauri/src/steam/publishing.rs:184-211 | an icon is made exactly when the size is within 16 bytes to 1 MiB, the extension names a format and the image decodes; oversize and undersize files give their own errors |
| Publishing.AsciiLowerTwice | src-tauri/src/steam/publishing.rs:194 | lower-casing twice is lower-casing once |
| Publishing.IconFormatIgnoresCase | src-tauri/src/steam/publishing.rs:194-200 | the case of the extension does not change the format |
| Publishing.ExtensionOf | src-tauri/src/steam/publishing.rs:194 | the extension of `stem.ext` is `ext` |
| Publishing.NoExtensionIsJpeg | src-tauri/src/steam/publishing.rs:194-198 | a file name without an extension is read as a JPEG |
| Publishing.UpscaleSettles | src-tauri/src/steam/publishing.rs:138-140 | no upscale exactly for a GIF or a square of at least 512 pixels, so the 512 by 512 result is never upscaled again |
| Publishing.PreviewPath | src-tauri/src/steam/publishing.rs:142-182 | a GIF, a square of at least 512 pixels, an icon without upscale or a failed save is sent as its own file; anything else is the upscaled copy in the temporary directory, never for a GIF |
| Publishing.UpscaledPreviewFormat | src-tauri/src/steam/publishing.rs:154-162 | the upscaled copy's file name reads back, through its extension, as the icon's own format |
| Publishing.SubmitFields | src-tauri/src/steam/publishing.rs:238-291 | tags are the user's then `Addon` then the type; a creation always sends a preview and no change note, an update sends a preview only when given one and its own change note |
| Publishing.GmaPathsPrefix | src-tauri/src/steam/publishing.rs:95-108 | the archives of a prefix of the listing are a prefix of its archives |
| Publishing.ContentPathScan | src-tauri/src/steam/publishing.rs:89-119 | as written: not a folder is refused, an unreadable one is an I/O error, two archives are refused, one is returned, and none reaches `assume_init` on nothing |
| Publishing.ContentPathNew | src-tauri/src/steam/publishing.rs:89-119 | succeeds exactly for a readable folder with one archive, which it returns; a folder with none is refused |
| Publishing.WithNul | src-tauri/src/steam/publishing.rs:416-426 | one pattern per ignore glob, each holding the NUL the matcher needs |
| Publishing.CandidatesPrefix | src-tauri/src/steam/publishing.rs:436-464 | each walk item adds at most one candidate, after those of the items before it |
| Publishing.ScanStopsForGood | src-tauri/src/steam/publishing.rs:469-476 | once the loop has returned or broken off, later files change nothing |
| Publishing.Entries | src-tauri/src/steam/publishing.rs:483-488 | one archive entry per file |
| Publishing.NoneRejected | src-tauri/src/steam/publishing.rs:473 | nothing is rejected exactly when every file is whitelisted |
| Publishing.ScanRunning | src-tauri/src/steam/publishing.rs:466-490 | while the loop runs it has seen each path once, rejected exactly the non-whitelisted paths, at most nine, and with none rejected listed every file and the sum of their sizes |
| Publishing.ScanStopped | src-tauri/src/steam/publishing.rs:468-477 | the loop stops on a tenth rejected path, keeping the first nine, or on a path seen before |
| Publishing.WhitelistPasses | src-tauri/src/steam/publishing.rs:409-509 | success exactly for an absolute folder with files left after the ignore lists, no path twice and all whitelisted, returning every file and the total size |
| Publishing.WhitelistEmpty | src-tauri/src/steam/publishing.rs:494-496 | `NoEntries` exactly when nothing is left after the ignore lists |
| Publishing.WhitelistRejects | src-tauri/src/steam/publishing.rs:473-507 | a rejection lists the rejected paths sorted, or the first nine sorted and then `...`; with no path twice any rejected path gives a rejection |
| Publishing.WhitelistDuplicate | src-tauri/src/steam/publishing.rs:466-471 | a duplicate error names a path the walk gave twice, and never occurs without one |
| Publishing.ScanSnoc | src-tauri/src/steam/publishing.rs:465-490 | one more file is one more loop step, unless the loop has stopped |
| Publishing.CandidatesSnoc | src-tauri/src/steam/publishing.rs:436-464 | one more walk item adds its candidate, if any |
| Publishing.Sift | src-tauri/src/steam/publishing.rs:440-473 | directories, paths not under the root and ignored paths are dropped; the rest are lower-cased relative paths with their size and whitelist verdict |
| Publishing.VerifyWhitelist | src-tauri/src/steam/publishing.rs:409-509 | the loop returns exactly the verdict the lemmas above describe |
| SteamFrontend.TrimmedPath | app/steam.js:106-120 | a prefix of the path, followed in it only by separators, and not itself ending in one |
| SteamFrontend.TrimmedPathUnique | app/steam.js:106-120 | any such split of the path is the one the trim makes |
| SteamFrontend.TrimmedPathIdempotent | app/steam.js:106-120 | trimming twice is trimming once |
| SteamFrontend.TrimPath | app/steam.js:106-120 | the counting loop returns the trimmed path |
| SteamFrontend.FileIconDefault | app/steam.js:122-173 | the default icon goes exactly to a missing extension or one without a case |
| SteamFrontend.NamedIcon | app/steam.js:123-167 | every extension with a case gets an icon other than the default |
| SteamFrontend.FileTypeUnknown | app/steam.js:175-212 | `unknown` exactly for a missing extension or one the switch does not list |
| SteamFrontend.IconMatchesType | app/steam.js:122-212 | the default icon exactly for an unknown type or the extension `map`, the one known extension without an icon case |
| SteamFrontend.SameExtensions | app/steam.js:122-212 | the icon cases are the known types less `map` |
| SteamFrontend.BackTrackLastDot | app/steam.js:214 | backtracking from a position in text without line terminators captures what follows the last dot up to it |
| SteamFrontend.BackTrackFails | app/steam.js:214 | with a line terminator in the path the pattern cannot match |
| SteamFrontend.MatchTakesLastDot | app/steam.js:214-216 | the capture is the text after the last `.`, and there is none without a dot or with a line terminator |
| SteamFrontend.FileTypeInfoOf | app/steam.js:214-218 | a path ending in `.` and an extension is classified by that extension, lower-cased |
| SteamFrontend.FileTypeInfoNoDot | app/steam.js:214-218 | a path without a dot has no extension, the default icon and an unknown type |
| SteamFrontend.ResolveKeepsFirst | app/steam.js:47-53 | a deferred promise keeps the first item it is resolved with; later resolutions call nothing |
| SteamFrontend.Steam.constructor | app/steam.js:37-45 | an empty workshop cache with no requests sent |
| SteamFrontend.Steam.WorkshopItemReceived | app/steam.js:47-53 | a waiting promise for the id is resolved, calling its dead-item callbacks; otherwise a resolved promise is stored |
| SteamFrontend.Steam.GetWorkshopAddon | app/steam.js:80-92 | the first request for an id asks the backend once and caches a waiting promise; the callback is chained, or called at once for a dead resolved item; the cached promise is returned |
| AddonsFrontend.FileTypesDiffer | app/addons.js:198-232 | this copy of `getFileType` differs from the `steam.js` one only on `bsp`, which it calls unknown |
| AddonsFrontend.FileTypeInfoDiffers | app/addons.js:234-238 | the two `getFileTypeInfo` copies agree on icon and extension and disagree on the type only for a `.bsp` path |
| AddonsFrontend.PageCache.constructor | app/addons.js:6-7 | an empty page cache that has asked for nothing |
| AddonsFrontend.PageCache.Browse | app/addons.js:25-49 | a page outside 1 to 4294967295 is refused; a cached page is answered from the cache; any other page is asked of the backend once per call |
| AddonsFrontend.PageCache.PageArrived | app/addons.js:31-47 | the backend's page is cached |
| AddonsFrontend.PageCache.Clear | app/addons.js:21-23 | the cache is emptied |
| AddonsFrontend.GmaMetadataQueue.constructor | app/addons.js:9-13 | empty cache, queue and waiting table |
| AddonsFrontend.GmaMetadataQueue.CheckGMAQueue | app/addons.js:51-76 | asks the backend for the head of the queue, if any, and changes nothing else |
| AddonsFrontend.GmaMetadataQueue.GetGMAMetadata | app/addons.js:78-99 | a cached reply comes back settled; a waiting path gets its promise again; a new path is queued and, on an empty queue, asked for at once |
| AddonsFrontend.GmaMetadataQueue.Answer | app/addons.js:58-74 | metadata is cached, the path stops waiting, the head is dropped and a timer is set; an error is cached and nothing else moves; either way the caller's promise is fulfilled with the reply |
| AddonsFrontend.GmaMetadataQueue.TimerFires | app/addons.js:65 | the timer asks for the head of the queue again |
| AddonsFrontend.ErrorStallsQueue | app/addons.js:69-72 | after one failed request a second path stays queued forever and its caller's promise never settles |
| AddonsFrontend.TimerSendsTwice | app/addons.js:58-93 | a request queued between a success and its timer is sent twice |
| AddonsFrontend.DoubleAnswerForgets | app/addons.js:60-63 | the two answers to the doubled request drop the request behind it, whose caller is then forgotten |
| AddonsFrontend.FixedGmaMetadataQueue.NeverStuck | app/addons.js:51-99 | a queue kept by the corrected handlers can always move and forgets no caller |
| AddonsFrontend.FixedGmaMetadataQueue.constructor | app/addons.js:9-13 | an empty queue that satisfies the invariant |
| AddonsFrontend.FixedGmaMetadataQueue.CheckGMAQueue | app/addons.js:51-56 | asks for the head only when it is not already asked for |
| AddonsFrontend.FixedGmaMetadataQueue.GetGMAMetadata | app/addons.js:78-99 | as the source, keeping the invariant |
| AddonsFrontend.FixedGmaMetadataQueue.Answer | app/addons.js:58-74 | either reply is cached, settles the caller's promise, drops the head and sets a timer, keeping the invariant |
| AddonsFrontend.FixedGmaMetadataQueue.TimerFires | app/addons.js:65 | the timer sends the head if it is not already asked for, keeping the invariant |
| DragDrop.LazyFirstDot | app/dragndrop.js:6 | growing the lazy prefix from before the first dot, in text without line terminators, captures what follows the first dot |
| DragDrop.LazyFails | app/dragndrop.js:6 | past the first line terminator no prefix length matches |
| DragDrop.MatchTakesFirstDot | app/dragndrop.js:6-9 | the extension is the text after the first `.`; there is none without a dot or with a line terminator |
| DragDrop.LowerKeepsMarks | app/dragndrop.js:17 | lower-casing the name keeps its dots and line terminators |
| DragDrop.FolderUnreachable | app/dragndrop.js:19-47 | no file is ever given the folder type |
| DragDrop.FolderRefused | app/dragndrop.js:24-45 | a dropped folder (no dot, no MIME type) makes the drop refused |
| DragDrop.FixedFolder | app/dragndrop.js:24-28 | with the missing extension caught by the `null` case, a name without a dot is a folder exactly when its MIME type is blank |
| DragDrop.FixedKeepsExtensions | app/dragndrop.js:19-47 | the correction changes nothing for a file that has an extension |
| DragDrop.CheckDrop | app/dragndrop.js:11-59 | nothing dropped exactly for no files; accepted files are all the files, in order, all of one type; a refusal means no one type fits them all |
| DragDrop.DragCounter.constructor | app/dragndrop.js:61 | no drag and no overlay |
| DragDrop.DragCounter.DragEnter | app/dragndrop.js:63-72 | from any state the counter goes up and the overlay shows once it reaches one; a consistent counter stays consistent |
| DragDrop.DragCounter.DragLeave | app/dragndrop.js:80-88 | from any state, including the one a drop leaves, the counter goes down and the overlay hides when it reaches zero; a consistent counter stays consistent |
| DragDrop.DragCounter.Drop | app/dragndrop.js:90-101 | as written: the counter goes down but the overlay stays, so a drop ending the only drag leaves it showing |
| DragDrop.DragCounter.FixedDrop | app/dragndrop.js:80-101 | a drop ends a drag as leaving does, and the overlay shows exactly while a drag is over the window |

## Left out

- I/O is a parameter or a value given to the model. This covers files, directories, the folder walk, metadata reads, the clock and the Steam client. It also covers the WebSocket and webview event channels, which become logs of sent messages.
- Concurrency is left out. The backend runs aborts, directory scans and the search on thread pools, and the model runs them one at a time, in order. A search `full` runs in the background and streams results as transaction data; it is not part of this model.
- Floating-point arithmetic is not modelled. Progress is an integer count of hundredths of a percent. `progress_as_int` and the frontend's task capacity are computed on exact rationals, so a value that rounds differently in `f64` at an exact half is not captured. The frontend's quantisation of progress (app/transactions.js:168) is not part of this model.
- `progress_reset` (src-tauri/src/transactions/mod.rs:142-148) sends a message kind that the frame encoder does not have. It is not part of this model.
- `TransactionInner::emit` and the WebSocket server loop are modelled only by the message they hand on.
- Unicode case mapping is left out. `to_lowercase`, `to_ascii_lowercase` and JavaScript's `toLowerCase` are modelled as ASCII lower-casing. Rust strings in the whitelist and escaping code are modelled one character per UTF-8 byte. The search measures strings in UTF-8 bytes, as `str::len` does.
- JavaScript strings are sequences of characters, not of UTF-16 code units. `trim` is modelled as removing the ASCII white space, the line terminators, U+00A0 and U+FEFF; the other Unicode space separators are left out.
- The fuzzy matcher (`SkimMatcherV2`) is a parameter of the search. The search's parallel scan is modelled as a scan in item order.
- Image decoding, resizing and saving are parameters of the icon model. Writing the bundled default icon to the temporary directory is left out.
- The Windows build of `verify_whitelist`, which has no duplicate check, is left out. The model follows the other builds.
- `PathBuf::push` is modelled as joining with `/`.
- The Steam upload's progress polling loop in `update` is left out. Its `last_processed` is assigned right before it is compared, so that test never fails.
- Other memoised lookups in `steam.js` and `addons.js` follow the same pattern as `getWorkshopAddon` and the page browsers, and are left out. These are `getMyWorkshop`, `getInstalledAddons`, `getSubscribedAddons`, `getAddon`, `getSteamUser`, `getWorkshopMetadata`, `getWorkshopUploader`, `previewGMA` and `lockWorkshopAddons`.
- `trimPath` and `getFileIcon` in `addons.js` are the same code as in `steam.js`, and are modelled once.
- In `dragndrop.js` the `dragover` handler and the logging of a drop result are left out. `DROP_TYPE_IMAGE` is declared but never produced.
- `GMAEntry::read` (src-tauri/src/gma/read.rs:145-153) seeks the same way as `read_entry` and is not modelled separately.
- The rejected paths that the whitelist tests list (src-tauri/src/gma/whitelist.rs:204-211) are not proved. Showing a rejection means ruling out every one of the whitelist globs. The three longest accepted test paths (197, 199, 200) are not proved either.
- `u64` overflow of the sum of file sizes in `verify_whitelist` is not modelled; the sum is unbounded.
- LegacyTransactions.Registry.New: the `usize` id counter is unbounded in the model; wrap-around after 2^64 ids is not modelled.
- TransactionRegistry.Transactions.New: the `u32` counter wraps as in the source, but the registry is proved sorted only while it has not wrapped. After 2^32 ids the wrapped id breaks the order, and the model says nothing about that case.
- SearchIndex.CleanItemsSorted, SearchIndex.Search.Add, SearchIndex.Search.Clean and SearchIndex.Search.Quick follow the intended rank order (newest first, then longest first), not the `Ord` as written (src-tauri/src/search.rs:44-50). That `Ord` is not transitive, so the source's `binary_search` can overwrite an item (AddAsWrittenLosesItem) and its `par_sort` has no defined result. The items a clean index keeps, and the order `quick` scans them in, can therefore differ from the source's. The as-written behaviour is modelled separately; see Findings.
- GmaRead.TextAt: `GMAFileHandle::read_nt_string` and `skip_nt_string`, which src-tauri/src/gma/read.rs:57-77 calls, are not part of this model. Their `?` shows they return a `Result`; the model assumes they read a NUL-terminated string that must be valid UTF-8, like the reader of src-tauri/src/lib/gma/read.rs:14-22, and that every failure is a `FormatError`.
- GmaRead.GmaFile.Metadata: `extracted_name()`, which `update_extractable_name` calls, is not part of this model; its result is a constant given to the class (`computedName`).
- SteamFrontend.Steam.GetWorkshopAddon: runs a `.then` callback at once when the promise is already resolved. JavaScript runs it later, as a microtask, so the order of that callback against the caller's following code is not captured.
- GmaLibWrite.WriteGma: the output (GmaStream.ByteWriter) is modelled as a byte list that every write extends in full. `write_gma` is generic over any `io::Write` (src-tauri/src/lib/gma/write.rs:17) and passes on its I/O errors with `?`; the model has no I/O error, and its only failure is a name with an interior NUL. The magic is written with `write` (src-tauri/src/lib/gma/write.rs:18), whose short-write count is not checked; the model writes all four bytes.
- WireFrames.AsBytes: `write_nt_string` comes from `NTStringWriter`, which is not part of this model. It is assumed to append the text and a NUL and never to fail, the same assumption GmaRead.TextAt makes for the reader.
- Whitelist.Globber: requires only that each input holds a NUL. This is weaker than the debug assertions at src-tauri/src/gma/whitelist.rs:103-106, which demand that each input ends in exactly one NUL.

## Follows the code

The model follows the code where it differs from what its comments and naming suggest:

- Events buffered in a frontend transaction before its first listener are replayed to that listener and never cleared.
- Constructing a frontend transaction for an id that is already registered replaces the old registration.
- `finish` and `error` have no guard against a transaction that has already ended. A second `error` throws only because the first one overwrote the method with its arguments.
- `setProgress` is not monotonic.
- `quick` sets `has_more` as soon as it reaches any item after the tenth match (src-tauri/src/search.rs:288-291). So `has_more` can be true when no further item matches.

## Findings

| source | as written | input that shows it | evidently intended | confidence | as-written member | corrected member |
|---|---|---|---|---|---|---|
| src-tauri/src/transactions/websocket.rs:158-170 | compares the empty slice `bytes[0..0]` with the one-byte cancel prefix, then converts the 8 bytes `bytes[1..9]` to a `u32` | the frame `[123, 0, 0, 0, 7]` is ignored; past the check it would panic, being shorter than 9 bytes | a frame starting with 123 cancels the big-endian id in its next four bytes | high, not executed | WireFrames.CancelCheckNeverFires | WireFrames.CancelFrameRoundTrip |
| src-tauri/src/gma/read.rs:136 | seeks to `entry.index`, the entry's offset among the contents, counted from the start of the file | a file whose one entry holds 1, 2, 3, 4 right after a 4-byte header reads back as "GMAD" | seek to `entries_start + entry.index` | medium (the handle type is not part of this model), not executed | GmaRead.ReadEntryAtReadsHeader | GmaRead.ReadEntryFromContents |
| src-tauri/src/search.rs:44-50 | `Ord` compares the reversed timestamp ordering with the reversed length ordering, not one after the other | items x (time 0, len 0), y (time 1, len 5), w (time 0, len 1): x = y and y = w but x < w; adding an item with time 1 and len 5 to an index holding one with time 0 and len 1 overwrites it | newest first, then longest first | high, not executed | SearchIndex.AddAsWrittenLosesItem | SearchIndex.AddByRank |
| src-tauri/src/steam/publishing.rs:89-119 | a folder holding no `.gma` leaves `gma_path` uninitialised and `assume_init` reads it | a readable folder with no `.gma` file | refuse it as `InvalidContentPath` | high, not executed | Publishing.ContentPathScan | Publishing.ContentPathNew |
| app/addons.js:69-72 | an error is cached but the head stays queued and waiting, no timer is set, and the caller's promise is fulfilled with the error | request "a", fail it, then request "b": "b" is never sent | drop the failed head, reject its caller's promise and go on with the queue | high, not executed | AddonsFrontend.ErrorStallsQueue | AddonsFrontend.FixedGmaMetadataQueue.Answer |
| app/addons.js:58-93 | a request made after a success, before its timer fires, is sent once because the queue was empty and again by the timer; each answer drops the head | request "a" and answer it, request "b", let the timer fire, request "c", answer "b" twice: "c" is dropped and its caller waits for ever | send only the head, and only while it is unanswered | high, not executed | AddonsFrontend.DoubleAnswerForgets | AddonsFrontend.FixedGmaMetadataQueue.CheckGMAQueue |
| app/dragndrop.js:24-28 | the folder case tests for `null`, but a name without a dot gives `undefined` | a file named `addon` with an empty MIME type makes the drop refused | such a file is a folder | high, not executed | DragDrop.FolderRefused | DragDrop.FixedFolder |
| app/dragndrop.js:90-94 | `drop` counts the drag down but never removes the overlay | one `dragenter` and then a `drop`: the counter is 0 and the overlay still shows | remove the overlay when the counter reaches 0, as `dragleave` does | medium (the page may hide the overlay elsewhere), not executed | DragDrop.DragCounter.Drop | DragDrop.DragCounter.FixedDrop |
