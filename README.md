# log_proxy in Dafny

A model of the core of `log_proxy`, a small Python service that moves
Python log records between processes, with proofs about it.

- **Forwarders.** A forwarder queues records in a bounded priority queue
  ordered by `(created_at, counter)`. When the queue is full, the record
  that would be served first is dropped. The `process` loop connects,
  takes the next record and hands it to `process_message`. It invalidates
  the connection and sleeps 5 seconds on any exception.
- **SocketForwarder and the frame format.** `SocketForwarder` sends each
  record to a log server as one frame: a 4-byte big-endian length (`>L`)
  followed by the UTF-8 bytes of `json.dumps(record)`.
- **LogServer.** The server keeps a token store, either in memory or
  reloaded from a token file. It authenticates each connection with a
  `{"token": ...}` handshake frame. It then logs every JSON object the
  client sends, with the record's `name` prefixed by the client's name,
  until the first frame that is not an object.
- **Watcher.** `WatcherHandler` follows files. It remembers an offset per
  file and, on every modification, logs the stripped non-blank complete
  lines written since that offset.
- **parse_address.** `parse_address` turns a command-line address such as
  `127.0.0.1:80`, `[::]:80` or `10.0.0.1,10.0.0.2:80` into a host, or a
  sorted list of hosts, and a port.

The model follows each source file's own form:

- Classes whose methods update their fields become Dafny classes:
  - `Forwarders.Forwarder`;
  - `SocketForwarders.SocketForwarder`;
  - `Server.LogServer`;
  - `Watcher.WatcherHandler`;
  - `Frame.Reader`, which stands for the `asyncio.StreamReader` the server reads from.
- Each method is proved against a specification function:
  - `PutSpec` / `PopMin`;
  - `Frame.ReadFrame`;
  - `Server.Session`;
  - `Watcher.Modified`;
  - `Address.ParseAddressSpec`.
- The properties are lemmas about those functions.

Files:

| file | what it holds |
|---|---|
| `optional.dfy` | the `Option` type |
| `strings.dfy` | the Python `str` operations the core relies on: comparison and `sorted`, `split`/`join`, `strip`, `lower`, `int()`/`str()` |
| `json.dfy` | JSON values, truthiness and `str()` |
| `frame.dfy` | `struct` `>L`, UTF-8, the frame writer, the stream reader and `_read_json`'s result |
| `forwarder.dfy` | `Forwarder`, its queue, the `process` loop and `DatabaseForwarder.args` |
| `socket_forwarder.dfy` | `SocketForwarder` |
| `server.dfy` | `LogServer` |
| `watcher.dfy` | `WatcherHandler` |
| `address.dfy` | `parse_address` |

Where the code differs from the documented design, the model follows
the code:

- Required fields are not enforced. The documented design has the server drop
  records that lack `level`, `pid`, `message`, `created_at` or
  `created_by`. The code does not check these fields.
- The server prefixes `name`; it does not set `host`. The design has
  the server set the record's `host` to the client's name and hand the
  record to a sink. The code instead prefixes `name` with
  `"<client name> > "` and passes the record to the Python logger
  (server.py:82-89).
- The token file is re-read on every handshake. The design says the
  file is reloaded only when its modification time changes. The code never
  records the modification time (`token_mtime` stays `None`). The model
  keeps `tokenMtime` as `None` as a class invariant.
- Some tests are written against a newer interface than this code. Among
  them: `auth_client` returning the client's metadata, `_read_message`,
  and the watcher's `get_size`/`set_size`. Their expectations are used
  only where this code agrees with them.

The imperative members follow the code as written, including the defects
listed under "## Findings". The corrected definitions stand beside them, with
the intended properties proved.

## Model

| member | source | states |
|---|---|---|
| Forwarders.StampLtStrictTotal | src/log_proxy/forwarders/base.py:41-42 | ordering entries by `created_at` is a strict total order: irreflexive, total, asymmetric, transitive |
| Forwarders.BeforeStrictTotal | src/log_proxy/forwarders/base.py:42 | the `(time, counter, message)` tuple order is a strict order; entries with different counters are always comparable |
| Forwarders.MinIndex | src/log_proxy/forwarders/base.py:23 | the entry `PriorityQueue.get` serves: no queued entry comes before it |
| Forwarders.PutSpec | src/log_proxy/forwarders/base.py:35-43 | `put` when the queue is full: the queue keeps its size, exactly the first-served entry leaves, and the new entry arrives with its stamp and counter. Otherwise `put` appends the new entry and nothing else changes |
| Forwarders.PutRespectsBound | src/log_proxy/forwarders/base.py:38-42 | with a positive `max_size`, `put` never makes the queue exceed it, and a full queue stays exactly full |
| Forwarders.PutEvictsFirstServed | src/log_proxy/forwarders/base.py:38-39 | the entry dropped on overflow is one that no other entry precedes, and every other entry survives the `put` |
| Forwarders.PoppedPrecedesRest | src/log_proxy/forwarders/base.py:21-23 | the entry `get` returns precedes every entry left in the queue |
| Forwarders.DrainPermutes | src/log_proxy/forwarders/base.py:21-23 | calling `get` until the queue is empty returns every queued entry exactly once (same multiset) |
| Forwarders.DrainSorted | src/log_proxy/forwarders/base.py:21-23 | those entries come out in strictly increasing `(created_at, counter)` order |
| Forwarders.DrainFifoAmongEqualStamps | src/log_proxy/forwarders/base.py:41-43 | records with equal `created_at` are served in the order they were put |
| Forwarders.ValidQueueUnique | src/log_proxy/forwarders/base.py:42-43 | the counter gives every queued entry a distinct sequence number |
| Forwarders.Iteration | src/log_proxy/forwarders/base.py:48-60 | one pass of the `process` loop: `connect` is called exactly when not connected; `get` and `process_message` run together, exactly when connecting did not raise; `invalidate` then `sleep(5)` close the pass exactly when something raised |
| Forwarders.Forwarder.constructor | src/log_proxy/forwarders/base.py:10-12 | an empty queue with the given `max_size` and counter 0 |
| Forwarders.Forwarder.Get | src/log_proxy/forwarders/base.py:21-23 | returns the first-served record and removes exactly that entry; the counter is unchanged |
| Forwarders.Forwarder.Put | src/log_proxy/forwarders/base.py:35-43 | the queue becomes `PutSpec` of the old queue and the counter goes up by one |
| Forwarders.Forwarder.ProcessStep | src/log_proxy/forwarders/base.py:48-56 | for the base class, whose hooks do nothing: one pass connects, gets and processes the first-served record, and raises nothing |
| Forwarders.DatabaseArgs | src/log_proxy/forwarders/base.py:68 | `args` keeps exactly the keyword arguments whose values are truthy, with their values unchanged |
| Forwarders.DatabaseArgsIdempotent | src/log_proxy/forwarders/base.py:68 | filtering `args` a second time changes nothing, and no falsy argument survives |
| Forwarders.DatabaseForwarder.constructor | src/log_proxy/forwarders/base.py:66-68 | a fresh empty queue, and `args` as filtered |
| Forwarders.OverflowScenario | tests/test_forwarders.py:21-29 | in a queue of size 2, after three `put`s the first record is gone and the other two are served in order |
| SocketForwarders.SocketForwarder.constructor | src/log_proxy/forwarders/socket.py:12-26 | stores host, port and token; not connected; a fresh empty queue of the given size |
| SocketForwarders.SocketForwarder.Invalidate | src/log_proxy/forwarders/socket.py:31-33 | drops both connection handles, so the forwarder is no longer connected |
| SocketForwarders.SocketForwarder.ProcessMessage | src/log_proxy/forwarders/socket.py:50-55 | appends the frame of `json.dumps(message)` to the writer. It raises exactly when there is no writer, the length does not fit in 32 bits, or `drain` fails; the writer is unchanged when nothing could be written |
| SocketForwarders.SocketForwarder.Connect | src/log_proxy/forwarders/socket.py:39-48 | opens a new connection, and then, when a token is set, writes the `{"token": ...}` frame. It raises exactly when opening or that write fails; on success the writer holds exactly the handshake |
| SocketForwarders.SocketForwarder.ProcessStep | src/log_proxy/forwarders/base.py:48-60 | one pass of `process` with the socket hooks: when connecting fails the queue is untouched; otherwise the first-served record leaves the queue and its frame follows the handshake on the wire. Any failure leaves the forwarder disconnected, and the pass's hook trace is `Iteration` |
| SocketForwarders.ShortAsciiFrame | src/log_proxy/forwarders/socket.py:53-54 | a short ASCII JSON text is sent as `00 00 00 len` followed by its bytes |
| SocketForwarders.SentRecordIsReceived | src/log_proxy/forwarders/socket.py:52-54 | round trip: what `process_message` writes for a record, `_read_json` reads back as that record, leaving the following bytes unread |
| Frame.PackU32 | src/log_proxy/forwarders/socket.py:53 | `struct.pack(">L", n)` gives 4 bytes that unpack to `n`, and raises exactly when `n` does not fit in 32 bits |
| Frame.PackOfUnpack | src/log_proxy/server.py:74 | every 4-byte header is the packing of the length it declares, so pack and unpack are inverse bijections |
| Frame.Utf8 | src/log_proxy/forwarders/socket.py:54 | `str.encode()` gives at least one byte per character, and exactly one per character iff the text is ASCII |
| Frame.EncodeFrame | src/log_proxy/forwarders/socket.py:52-54 | the frame exists exactly when the character count fits in 32 bits; its header declares that count and the UTF-8 bytes follow |
| Frame.PrefixCountsBytesIffAscii | src/log_proxy/forwarders/socket.py:53-54 | the length prefix equals the number of payload bytes iff the JSON text is ASCII |
| Frame.Reader.ReadExactly | src/log_proxy/server.py:78 | `readexactly(n)` returns the next `n` bytes and consumes them, or fails with `IncompleteReadError` when fewer remain; in that case everything left is consumed |
| Frame.ReadFrame | src/log_proxy/server.py:72-80 | what `_read_json` consumes is always a prefix of the stream, and anything but "no message" (a value, or an exception `_read_json` does not catch) needs at least a header and one byte |
| Frame.ReadEncodedFrame | src/log_proxy/server.py:74-78 | reading a written frame of ASCII JSON text gives back exactly `json.loads` of that text and leaves the next bytes untouched; the empty text is the zero-length frame and reads as "no message" |
| Frame.ReadNonAsciiFrame | src/log_proxy/forwarders/socket.py:53-54 | for non-ASCII text the prefix undercounts: the reader hands `json.loads` only the first `len(data)` bytes and leaves the rest of the payload in the stream. This case arises only with a `dumps` that emits non-ASCII text; the default `json.dumps` (`ensure_ascii`) never does |
| Frame.CutFrameRaises | src/log_proxy/server.py:72-80 | for non-ASCII text only: when those first `len(data)` bytes end inside a character, `json.loads` raises `UnicodeDecodeError`, which `_read_json` does not catch; the payload's tail stays unread |
| Frame.LoneNonAsciiCharRaises | src/log_proxy/forwarders/socket.py:52-54 | a JSON text that is one non-ASCII character (possible only with a `dumps` that emits non-ASCII text) is framed with length 1, and reading that frame raises |
| Frame.Utf8HasNoMarkBytes | src/log_proxy/forwarders/socket.py:54 | `str.encode()` never produces the bytes `0xFE` or `0xFF`, so a payload never starts with a UTF-16 or UTF-32 byte-order mark |
| Server.Reload | src/log_proxy/server.py:52-60 | `_update_tokens`: an in-memory store is untouched. A file-backed store is replaced by whatever JSON value the file holds, a dict or not, and the call raises when the file is missing or is not valid JSON |
| Server.ReloadIgnoresPreviousStore | src/log_proxy/server.py:58-60 | a reload replaces the whole store: the result does not depend on the previous store, and reloading the file that holds a store gives it back |
| Server.AuthClient | src/log_proxy/server.py:62-70 | a token is found exactly when the handshake is a JSON object with a truthy `token`, and that value is returned |
| Server.AuthClientRefusals | src/log_proxy/server.py:62-70 | no message, `{}`, `{"token": ""}` and a non-object give no token; `{"token": "b"}` gives `"b"` |
| Server.Authorize | src/log_proxy/server.py:100-108 | a client is admitted exactly when its token is a registered string whose metadata is a non-empty object. Its name is the metadata's `name`, defaulting to the token. The handler crashes exactly on an unhashable token or on truthy metadata that is not an object |
| Server.EmptyMetadataRejected | src/log_proxy/server.py:103-106 | a token registered with `{}` is refused, as written |
| Server.AuthorizeCorrected | src/log_proxy/server.py:103-108 | only registered string tokens with object metadata are admitted, named by `name` or else the token |
| Server.AuthorizeCorrectedAdmitsRegistered | src/log_proxy/server.py:103-108 | every token registered with object metadata is admitted, `{}` included (named by the token); on non-empty metadata it agrees with the code as written |
| Server.Prefix | src/log_proxy/server.py:85-86 | with a falsy client name the record is unchanged; with a truthy one, `_log_record` raises exactly when the record has no `name` |
| Server.PrefixRewritesOnlyName | src/log_proxy/server.py:85-86 | prefixing changes only `name`, to `"<client> > <old name>"`; every other key and value is kept |
| Server.StreamStep | src/log_proxy/server.py:115-120 | one turn of the streaming loop: crash when reading the frame raises; stop at the first frame that is not an object; crash when prefixing raises; otherwise log the prefixed record and go on |
| Server.RefusedClientLogsNothing | src/log_proxy/server.py:99-106 | a client with no token, an unknown token or `{}` metadata is stopped without anything being logged |
| Server.FailedLookupCrashes | src/log_proxy/server.py:100-103 | the handler crashes with nothing logged when reading the handshake raises, when `_update_tokens` raises, or when the store is not a dict (`AttributeError` on `get`) |
| Server.StreamPrefixesNames | src/log_proxy/server.py:115-120 | with a truthy client name, every logged record's name starts with `"<client> > "` |
| Server.StreamOfSentRecords | src/log_proxy/server.py:115-122 | the server logs exactly the records a forwarder sent, in order and prefixed, then closes when the stream ends |
| Server.RegisteredClientIsServed | src/log_proxy/server.py:96-122 | end to end, for a registered client: after the handshake the log holds the "connected" note (for a truthy name) and then every record sent, and the connection closes |
| Server.LogServer.constructor | src/log_proxy/server.py:22-37 | stores the settings; an empty dict as token store and an empty log |
| Server.LogServer.AddToken | src/log_proxy/server.py:39-44 | raises `LogTokenFileError` exactly when file-backed, changing nothing; otherwise records the metadata under the token. A store that is not file-backed stays a dict |
| Server.LogServer.DeleteToken | src/log_proxy/server.py:46-50 | raises exactly when file-backed; otherwise removes the token and returns its metadata, or returns `None` when it was absent |
| Server.LogServer.UpdateTokens | src/log_proxy/server.py:52-60 | the store becomes `Reload` of the old one, whatever JSON value that is, and the call raises exactly when `Reload` fails |
| Server.LogServer.ReadJson | src/log_proxy/server.py:72-80 | `_read_json` returns and consumes exactly what `ReadFrame` specifies |
| Server.LogServer.LogRecord | src/log_proxy/server.py:82-89 | appends the prefixed record to the log, or raises (`KeyError`) leaving the log unchanged |
| Server.LogServer.ServeOne | src/log_proxy/server.py:116-120 | one loop turn keeps the log plus the rest of the stream equal to the goal, and consumes input whenever the loop goes on |
| Server.LogServer.Serve | src/log_proxy/server.py:115-122 | the loop appends exactly `Stream` of the unread bytes to the log, and ends as `Stream` says |
| Server.LogServer.Accept | src/log_proxy/server.py:96-122 | `_accept`: the token store is reloaded when authentication is on and reading the handshake did not raise, and the log grows by exactly what `Session` specifies for the connection's bytes |
| Watcher.LineTextSpec | src/log_proxy/watcher.py:53-57 | in text mode a line ends at `\n`, `\r\n` or a lone `\r`, each read as one `\n`: the line is non-empty, holds no `\r`, ends in a newline exactly when the file has a break there, and is one character shorter than the file span only for `\r\n` |
| Watcher.LinesConcat | src/log_proxy/watcher.py:53-57 | `fp.seek(i)` then `for line in fp` yields lines that spell out the file from `i` on with every `\r\n` and lone `\r` translated to `\n` |
| Watcher.LinesShape | src/log_proxy/watcher.py:57 | every yielded line is non-empty with no `\r` and no inner newline, and all lines but the last end in a newline |
| Watcher.ScanStep | src/log_proxy/watcher.py:57-61 | one loop turn: a line ending in a newline that is not blank is delivered and its length added to `current`; any other line changes nothing |
| Watcher.ScanDelivered | src/log_proxy/watcher.py:59-61 | only complete, non-blank lines are delivered |
| Watcher.LoggedLinesAreStripped | src/log_proxy/watcher.py:58-61 | every logged line is non-empty and has no surrounding whitespace |
| Watcher.ScanLagsConsumed | src/log_proxy/watcher.py:59-60 | `current` never advances past the complete lines read, and reaches their end iff no complete line was blank |
| Watcher.WholeEndSpec | src/log_proxy/watcher.py:57 | the file offset just past the complete lines read is the offset itself or just past a line break, and no break follows it |
| Watcher.ConsumedLagsWholeEnd | src/log_proxy/watcher.py:57-60 | counting the complete lines in translated characters never passes that file offset, and reaches it when the file holds no `\r` |
| Watcher.Start | src/log_proxy/watcher.py:48 | the start offset is at most the file size, and it is the recorded offset when that fits |
| Watcher.ModifiedSpec | src/log_proxy/watcher.py:40-64 | other events, and files not grown past their offset, change nothing. Otherwise only this file's offset changes, moving forward but not past the end |
| Watcher.ExistingContentNotReplayed | src/log_proxy/watcher.py:48-57 | after `read_initial_size` has recorded a file's size, a modification logs only what was appended |
| Watcher.BlankLineReplays | src/log_proxy/watcher.py:57-64 | as written, blank lines are not counted in the offset. So `"\n\nab\n"` logs `ab` and stores offset 3, and after `z\n` is appended the next event logs the fragment `b` again |
| Watcher.CrLfReplays | src/log_proxy/watcher.py:54-64 | as written, `current` counts translated characters but `fp.seek` takes a file offset. So `"a\r\nb\r\ncd\n"` logs `a`, `b`, `cd` and stores offset 7, and after `z\n` is appended the next event logs the fragment `d` again |
| Watcher.CorrectedDeliversOnce | src/log_proxy/watcher.py:54-64 | with the offset set to the file offset just past the last complete line, blank or not, reading a file and then reading it again after text is appended logs the same lines, and leaves the same offset, as one read of the final file |
| Watcher.RecordSizesSpec | src/log_proxy/watcher.py:30-34 | walking a directory records the size of every matching file; paths not listed keep their old offsets |
| Watcher.WatcherHandler.constructor | src/log_proxy/watcher.py:10-13 | the handler starts with no observed offsets |
| Watcher.WatcherHandler.ReadInitialSize | src/log_proxy/watcher.py:23-34 | for a file, records its size when it matches the patterns; for a directory, records every matching file's size as `RecordSizes` specifies |
| Watcher.WatcherHandler.OnModified | src/log_proxy/watcher.py:40-64 | the logged lines and the new offsets are exactly those of `Modified` |
| Watcher.LogLines | src/log_proxy/watcher.py:57-61 | the `for line in fp` loop logs exactly the stripped terminated non-blank lines, in order, and advances `current` by exactly their lengths |
| Strings.SortSpec | src/logging_proxy/utils.py:140 | `sorted` of distinct strings is strictly increasing and a permutation of its input |
| Strings.Split | src/logging_proxy/utils.py:125 | `split(",")` gives at least one piece, and no piece contains the separator |
| Strings.JoinSplit | src/logging_proxy/utils.py:125 | joining the pieces of `split` with the separator gives back the text |
| Strings.Strip | src/log_proxy/watcher.py:58 | `strip()` is empty iff the line is all whitespace, and otherwise starts and ends with non-whitespace |
| Strings.AsciiLower | src/logging_proxy/utils.py:131-132 | the hostname is lower-cased character by character, with its length kept |
| Address.MatchIsShortest | src/logging_proxy/utils.py:106-107 | the anchored pattern fails iff no split point fits. Otherwise the lazy hosts group ends at the first point after which the rest is empty or `:digits`, and the port group is that rest |
| Address.TrailingPortTaken | src/logging_proxy/utils.py:107 | a trailing `:digits` is always taken as the port, whatever colons the hosts part holds |
| Address.FinalNewlineIgnored | src/logging_proxy/utils.py:107 | `$` accepts one final newline, which changes no result |
| Address.MalformedIffDisallowedChar | src/logging_proxy/utils.py:106-111 | "Only host and port are supported." is raised iff the address holds a character outside the class (letters are allowed only without `multiple`) |
| Address.PortResolution | src/logging_proxy/utils.py:114-121 | a port in the address overrides the default and must lie in 1..65535; otherwise the default is used, and "Port required." is raised iff there is none |
| Address.UnbalancedBracketsRaise | src/logging_proxy/utils.py:130-136 | `urlsplit` raises for a piece exactly when its brackets do not balance |
| Address.BracketsStripped | src/logging_proxy/utils.py:131-132 | a bracketed piece gives the lower-cased text inside the brackets as its hostname |
| Address.PlainNameKept | src/logging_proxy/utils.py:131-132 | a plain name without colon or brackets gives itself, lower-cased |
| Address.CollectFailsIffInvalid | src/logging_proxy/utils.py:124-136 | the loop raises "Invalid host." iff some piece makes `urlsplit` raise |
| Address.CollectIsSet | src/logging_proxy/utils.py:124-132 | otherwise the loop builds a set: no host twice, and exactly the hosts of the pieces |
| Address.CollectPieces | src/logging_proxy/utils.py:123-136 | the loop as written adds the pieces one by one, stopping at the first invalid one; the result is the set `Collect` specifies |
| Address.Choose | src/logging_proxy/utils.py:138-153 | the choice after the loop keeps the port, and can fail only with "Only one host is required.", "Host required." or the `TypeError` of sorting `None` |
| Address.ParseAddress | src/logging_proxy/utils.py:98-153 | the method computes exactly `ParseAddressSpec` |
| Address.HostsKeepPort | src/logging_proxy/utils.py:123-153 | the hosts part never changes the port, and fails only with a host error |
| Address.SeveralHostsNeedMultiple | src/logging_proxy/utils.py:138-146 | a list result needs `multiple`; without it, several hosts raise "Only one host is required." |
| Address.SeveralHostsSortedAndDistinct | src/logging_proxy/utils.py:139-140 | a list result is strictly increasing and holds exactly the hosts named in the address |
| Address.EmptyHostFallsBack | src/logging_proxy/utils.py:125-153 | an empty hosts part gives the default host, or "Host required." when there is none |
| Address.OneHostWithPort | src/logging_proxy/utils.py:148-151 | one non-empty host and an in-range port give exactly that host and that port |
| Address.NameWithPort | tests/test_utils.py:77-83 | `127.0.0.1:80` and `example.org:80` give the lower-cased name and the port |
| Address.BracketedWithPort | tests/test_utils.py:78 | `[::]:80` gives `::` and the port |

## Left out

- asyncio scheduling, the socket and TLS setup, and the `LogServer.run`/`start`/`stop` entry points are not modelled. Each connection's bytes are a given sequence, and `_stop` is the `Closed` outcome.
- `PostgresForwarder`, `MongoDBForwarder` and the database clients are not part of this model. Only the shared `DatabaseForwarder.args` filter is.
- `json.dumps` and `json.loads` are parameters. The round-trip lemmas assume `loads` parses what `dumps` produced. They also assume the text is ASCII, which `json.dumps` guarantees by default (`ensure_ascii`).
- Frame.ReadNonAsciiFrame: states which bytes reach `json.loads` and which stay unread, not what `json.loads` makes of them; Frame.CutFrameRaises adds that the read raises when the cut falls inside a character.
- Frame.CutFrameRaises: that `json.loads` raises `UnicodeDecodeError` on bytes ending inside a character is an assumption about the `loads` parameter (`RaisesOnCutCharacter`), not derived from `detect_encoding` and the UTF-8 decoder. The assumption covers only bytes without `0xFE`/`0xFF` and with neither of the first two bytes zero, where `detect_encoding` picks UTF-8; `Utf8HasNoMarkBytes` shows every cut payload meets the first condition. When the cut falls between characters, what `loads` makes of the bytes is left to the parameter.
- `utils.receive_struct` is not part of this model. `_read_json` is modelled as reading exactly 4 bytes and unpacking them big-endian.
- I/O errors other than the ones the core catches are not modelled. Whether `open_connection` and `drain` succeed is an input (`Net`, `drainOk`, `sendOk`).
- Forwarders.StampLt: Python raises `TypeError` when two `created_at` values of different kinds are compared. The model orders the kinds instead (missing < number < text < container), and floats and timestamps are integers. All list and dict stamps tie, so their order falls to the counter. Python compares lists element by element, and raises `TypeError` on two unequal dicts (base.py:42).
- Forwarders.Forwarder.Get: blocking on an empty queue is a precondition (`!Empty()`), not modelled waiting.
- Watcher.WatcherHandler.OnModified: the file is a string of characters, so offsets count characters, not bytes. `os.path.getsize` and `fp.seek` agree with this only for ASCII files. Universal newlines are modelled: `\r\n` and a lone `\r` end a line and read as `\n`. File reading, `match_file`'s glob patterns and the watchdog observer are parameters.
- Watcher.WatcherHandler.ReadInitialSize: `os.walk` is given as the list of files it yields.
- Address.UrlHostname: only the part of `urlsplit` reachable from the allowed characters is modelled. This covers the bracket check, the host before `:` or inside brackets, ASCII lower-casing and the empty host as `None`. Newer Pythons also validate the bracketed address; that check is not modelled.
- Address.Choose: `sorted()` of a set holding `None` and text raises `TypeError`; it is modelled as the `Unorderable` failure. A Python set's iteration order is not modelled: the set is a list without duplicates, and only `sorted` output or a single element is observable.
- The `\d` of the port pattern is modelled as ASCII digits only, so Unicode digits that Python's `\d` also accepts are not covered.
- Json.Show: `str()` of a list or dict is abbreviated as `[...]` or `{...}`, and JSON floats are not modelled. So the names built by Server.Prefix, Server.PrefixRewritesOnlyName and Server.ConnectedNote are exact only for scalar client and record names.

## Findings

| source | as written | input that shows it | evidently intended | confidence | as-written member | corrected member |
|---|---|---|---|---|---|---|
| src/log_proxy/watcher.py:57-64 | `current` advances only over complete non-blank lines, so blank lines stay before the stored offset | file `"\n\nab\n"`: logs `ab`, stores offset 3; then `"z\n"` appended: seeks to 3 and logs `b` and `z` | advance over every complete line and log only the non-blank ones, so each line is logged once | high, not executed | Watcher.BlankLineReplays | Watcher.CorrectedDeliversOnce |
| src/log_proxy/watcher.py:54-60 | `current += len(line)` counts characters after newline translation, but `fp.seek(current)` takes a file offset, so in a file with `\r\n` line ends the stored offset falls short of the lines already logged | file `"a\r\nb\r\ncd\n"`: logs `a`, `b`, `cd`, stores offset 7 of 9; then `"z\n"` appended: seeks to 7 and logs `d` and `z` | store the file position after the last complete line (`fp.tell()`), so each line is logged once | high, not executed | Watcher.CrLfReplays | Watcher.CorrectedDeliversOnce |
| src/log_proxy/server.py:103-106 | `if not client` refuses a token registered with empty metadata, since `not {}` is true | tokens `{"abc": {}}`, handshake `{"token": "abc"}`: the connection is closed | a registered token is admitted and named by the token itself (tests/test_server.py:105-110 expect `abc` to authenticate) | medium, not executed | Server.EmptyMetadataRejected | Server.AuthorizeCorrectedAdmitsRegistered |
